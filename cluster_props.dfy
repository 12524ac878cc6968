/** `prettyRedshiftProps`: the selection of cluster attributes shown in the
    status summary. The cluster description is a dictionary; its items are
    modelled as a sequence of key/value pairs in the dictionary's order. */
module ClusterProps {

  /** The attributes the summary shows. */
  const KeysToShow: seq<string> :=
    ["ClusterIdentifier", "NodeType", "ClusterStatus", "MasterUsername",
     "DBName", "Endpoint", "NumberOfNodes", "VpcId"]

  /** `[(k, v) for k, v in props.items() if k in keysToShow]`. */
  function ShownProps<V(==, !new)>(props: seq<(string, V)>): (rows: seq<(string, V)>)
    ensures |rows| <= |props|
    ensures forall p :: p in rows <==> p in props && p.0 in KeysToShow
  {
    if props == [] then []
    else (if props[0].0 in KeysToShow then [props[0]] else []) + ShownProps(props[1..])
  }

  /** The filter keeps the order of the items: filtering two parts and
      putting the results side by side is filtering the whole. */
  lemma {:induction false} ShownPropsAppend<V(!new)>(a: seq<(string, V)>, b: seq<(string, V)>)
    ensures ShownProps(a + b) == ShownProps(a) + ShownProps(b)
  {
    if a != [] {
      var head := if a[0].0 in KeysToShow then [a[0]] else [];
      assert (a + b)[0] == a[0];
      assert (a + b)[1..] == a[1..] + b;
      ShownPropsAppend(a[1..], b);
      calc {
        ShownProps(a + b);
        head + ShownProps(a[1..] + b);
        head + (ShownProps(a[1..]) + ShownProps(b));
        (head + ShownProps(a[1..])) + ShownProps(b);
        ShownProps(a) + ShownProps(b);
      }
    } else {
      assert a + b == b;
    }
  }

  /** Filtering the shown rows again changes nothing. */
  lemma {:induction false} ShownPropsIdempotent<V(!new)>(props: seq<(string, V)>)
    ensures ShownProps(ShownProps(props)) == ShownProps(props)
  {
    if props != [] {
      var head := if props[0].0 in KeysToShow then [props[0]] else [];
      ShownPropsAppend(head, ShownProps(props[1..]));
      ShownPropsIdempotent(props[1..]);
      assert ShownProps(head) == head;
    }
  }

  /** No two items share a key, as in a dictionary. */
  predicate DistinctKeys<V>(props: seq<(string, V)>)
  {
    forall i, j :: 0 <= i < j < |props| ==> props[i].0 != props[j].0
  }

  /** Rows taken from a dictionary still have distinct keys. */
  lemma {:induction false} ShownPropsDistinct<V(!new)>(props: seq<(string, V)>)
    requires DistinctKeys(props)
    ensures DistinctKeys(ShownProps(props))
  {
    if props != [] {
      var tail := ShownProps(props[1..]);
      ShownPropsDistinct(props[1..]);
      if props[0].0 in KeysToShow {
        var rows := [props[0]] + tail;
        forall i, j | 0 <= i < j < |rows| ensures rows[i].0 != rows[j].0 {
          if i == 0 {
            assert rows[j] in props[1..];
          }
        }
      }
    }
  }
}
