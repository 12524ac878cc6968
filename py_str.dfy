/** The Python string operations that the config write-back relies on:
    the `in` substring test, `str.split` on a one-character separator
    (and the `[-1]` segment taken from it), and `str.replace` with its
    replace-every-occurrence semantics. */
module PyStr {

  /** `sub` occurs in `s` starting at index `i`. */
  predicate OccursAt(s: string, sub: string, i: nat)
  {
    i + |sub| <= |s| && s[i..i + |sub|] == sub
  }

  lemma OccursAtShift(s: string, sub: string, i: nat)
    requires |s| > 0
    ensures OccursAt(s[1..], sub, i) <==> OccursAt(s, sub, i + 1)
  {
    if i + 1 + |sub| <= |s| {
      assert s[1..][i..i + |sub|] == s[i + 1..i + 1 + |sub|];
    }
  }

  /** Python's `sub in s`: a case-sensitive substring test. */
  function Contains(s: string, sub: string): bool
    decreases |s|
  {
    if |s| < |sub| then false
    else if s[..|sub|] == sub then true
    else Contains(s[1..], sub)
  }

  /** `sub in s` holds exactly when `sub` occurs at some index of `s`. */
  lemma {:induction false} ContainsIff(s: string, sub: string)
    ensures Contains(s, sub) <==> exists i: nat :: OccursAt(s, sub, i)
    decreases |s|
  {
    if |s| < |sub| {
    } else if s[..|sub|] == sub {
      assert OccursAt(s, sub, 0);
    } else {
      ContainsIff(s[1..], sub);
      if Contains(s, sub) {
        var i: nat :| OccursAt(s[1..], sub, i);
        OccursAtShift(s, sub, i);
      }
      if exists i: nat :: OccursAt(s, sub, i) {
        var i: nat :| OccursAt(s, sub, i);
        assert i != 0;
        OccursAtShift(s, sub, i - 1);
      }
    }
  }

  /** An occurrence at any index makes `sub in s` hold. */
  lemma OccursThenContains(s: string, sub: string, i: nat)
    requires OccursAt(s, sub, i)
    ensures Contains(s, sub)
  {
    ContainsIff(s, sub);
  }

  /** A string whose first character does not occur in `s` is not a
      substring of `s`. */
  lemma AbsentFirstChar(s: string, sub: string)
    requires sub != [] && sub[0] !in s
    ensures !Contains(s, sub)
  {
    ContainsIff(s, sub);
  }

  /** A substring of the middle part is a substring of the whole. */
  lemma {:induction false} ContainsInfix(a: string, b: string, c: string, sub: string)
    requires Contains(b, sub)
    ensures Contains(a + b + c, sub)
  {
    ContainsIff(b, sub);
    var j: nat :| OccursAt(b, sub, j);
    assert (a + b + c)[|a| + j..|a| + j + |sub|] == b[j..j + |sub|];
    assert OccursAt(a + b + c, sub, |a| + j);
    ContainsIff(a + b + c, sub);
  }

  /** A substring of a prefix is a substring of the whole. */
  lemma ContainsPrefix(a: string, b: string, sub: string)
    ensures Contains(a, sub) ==> Contains(a + b, sub)
  {
    if Contains(a, sub) {
      ContainsInfix([], a, b, sub);
      assert [] + a + b == a + b;
    }
  }

  /** Python's `glue.join(segs)`: the segments with `glue` between each two
      neighbours. */
  function Join(segs: seq<string>, glue: string): string
  {
    if |segs| == 0 then []
    else if |segs| == 1 then segs[0]
    else segs[0] + glue + Join(segs[1..], glue)
  }

  /** Python's `s.split(sep)` for a one-character separator: the pieces of
      `s` between occurrences of `sep`, never an empty list. */
  function Split(s: string, sep: char): (r: seq<string>)
    ensures |r| >= 1
    ensures forall k :: 0 <= k < |r| ==> sep !in r[k]
    ensures Join(r, [sep]) == s
  {
    if s == [] then [[]]
    else
      var t := Split(s[1..], sep);
      if s[0] == sep then
        assert Join([[]] + t, [sep]) == [sep] + Join(t, [sep]);
        [[]] + t
      else
        var r := [[s[0]] + t[0]] + t[1..];
        assert r[1..] == t[1..];
        assert Join(r, [sep]) == [s[0]] + Join(t, [sep]);
        r
  }

  /** `Split` is the only way to cut `s` into separator-free pieces that
      join back to `s`. */
  lemma {:induction false} SplitUnique(segs: seq<string>, s: string, sep: char)
    requires |segs| >= 1
    requires forall k :: 0 <= k < |segs| ==> sep !in segs[k]
    requires Join(segs, [sep]) == s
    ensures segs == Split(s, sep)
    decreases |s|, |segs[0]|
  {
    if |segs| == 1 {
      if s != [] {
        var t := Split(s[1..], sep);
        assert sep !in s[1..];
        SplitUnique([s[1..]], s[1..], sep);
        assert t == [s[1..]];
      }
    } else if segs[0] == [] {
      var tail := segs[1..];
      assert s == [sep] + Join(tail, [sep]);
      assert s[1..] == Join(tail, [sep]);
      SplitUnique(tail, s[1..], sep);
      assert segs == [[]] + tail;
    } else {
      var first := segs[0];
      var segs' := [first[1..]] + segs[1..];
      assert segs'[1..] == segs[1..];
      assert s == [first[0]] + Join(segs', [sep]);
      forall k | 0 <= k < |segs'| ensures sep !in segs'[k] {
        if k == 0 { assert first == [first[0]] + first[1..]; }
      }
      SplitUnique(segs', s[1..], sep);
      assert first[0] != sep && s[0] == first[0];
      assert [first[0]] + first[1..] == first;
      assert [[first[0]] + segs'[0]] + segs'[1..] == segs;
    }
  }

  /** Python's `s.split(sep)[-1]`. */
  function LastSegment(s: string, sep: char): string
  {
    var parts := Split(s, sep);
    parts[|parts| - 1]
  }

  /** The last segment is the suffix of `s` after its last `sep`, or all of
      `s` when `sep` does not occur. */
  lemma {:induction false} LastSegmentIsTail(s: string, sep: char)
    ensures var seg := LastSegment(s, sep);
      && |seg| <= |s|
      && s[|s| - |seg|..] == seg
      && sep !in seg
      && (|seg| < |s| ==> s[|s| - |seg| - 1] == sep)
      && (|seg| == |s| <==> sep !in s)
  {
    var parts := Split(s, sep);
    var seg := parts[|parts| - 1];
    if |parts| == 1 {
      assert seg == s;
    } else {
      var init := parts[..|parts| - 1];
      JoinSnoc(init, seg, [sep]);
      assert parts == init + [seg];
      assert s == Join(init, [sep]) + [sep] + seg;
      assert s[|s| - |seg|..] == seg;
      assert s[|s| - |seg| - 1] == sep;
    }
  }

  lemma {:induction false} JoinSnoc(segs: seq<string>, x: string, glue: string)
    requires |segs| >= 1
    ensures Join(segs + [x], glue) == Join(segs, glue) + glue + x
    decreases |segs|
  {
    if |segs| == 1 {
      assert (segs + [x])[1..] == [x];
    } else {
      assert (segs + [x])[1..] == segs[1..] + [x];
      JoinSnoc(segs[1..], x, glue);
    }
  }

  /** Python's `s.replace("", rep)`: `rep` inserted before every character
      and once more at the end. */
  function InsertEverywhere(s: string, rep: string): string
  {
    if s == [] then rep
    else rep + [s[0]] + InsertEverywhere(s[1..], rep)
  }

  /** Inserting `rep` at each of the `|s| + 1` positions of `s` adds that
      many copies of it, the first at the start and the last at the end. */
  lemma {:induction false} InsertEverywhereShape(s: string, rep: string)
    ensures var r := InsertEverywhere(s, rep);
      && |r| == |s| + (|s| + 1) * |rep|
      && r[..|rep|] == rep && r[|r| - |rep|..] == rep
  {
    if s != [] {
      InsertEverywhereShape(s[1..], rep);
      var r' := InsertEverywhere(s[1..], rep);
      var r := rep + [s[0]] + r';
      assert (|s| + 1) * |rep| == |s| * |rep| + |rep|;
      assert r[|r| - |rep|..] == r'[|r'| - |rep|..];
    }
  }

  /** Where everything sits in `s.replace("", rep)`: block `i` of width
      `|rep| + 1` starts with a copy of `rep`, followed by `s[i]` when
      `i < |s|`. With the length from `InsertEverywhereShape` this accounts
      for every position of the result. */
  lemma {:induction false} InsertEverywhereAt(s: string, rep: string, i: nat)
    requires i <= |s|
    ensures var r := InsertEverywhere(s, rep);
      var at := i * (|rep| + 1);
      && at + |rep| <= |r|
      && r[at..at + |rep|] == rep
      && (i < |s| ==> at + |rep| < |r| && r[at + |rep|] == s[i])
    decreases i
  {
    var r := InsertEverywhere(s, rep);
    var w := |rep| + 1;
    var at := i * w;
    if i == 0 {
      assert at == 0;
      if s == [] {
        assert r == rep;
      } else {
        assert r == (rep + [s[0]]) + InsertEverywhere(s[1..], rep);
      }
    } else {
      var r' := InsertEverywhere(s[1..], rep);
      assert r == (rep + [s[0]]) + r';
      InsertEverywhereAt(s[1..], rep, i - 1);
      var at' := (i - 1) * w;
      BlockStep(i, w);
      assert at == at' + w;
      assert r[at..at + |rep|] == r'[at'..at' + |rep|];
      if i < |s| {
        assert r[at + |rep|] == r'[at' + |rep|];
      }
    }
  }

  lemma BlockStep(i: nat, w: nat)
    requires i > 0
    ensures i * w == (i - 1) * w + w
  {
  }

  /** Python's `s.replace(pat, rep)`: every occurrence of `pat`, scanned left
      to right without overlap, is replaced by `rep`; an empty `pat` matches
      at every position. */
  function ReplaceAll(s: string, pat: string, rep: string): string
    decreases |s|
  {
    if pat == [] then InsertEverywhere(s, rep)
    else if |s| < |pat| then s
    else if s[..|pat|] == pat then rep + ReplaceAll(s[|pat|..], pat, rep)
    else [s[0]] + ReplaceAll(s[1..], pat, rep)
  }

  /** A non-empty pattern that does not occur leaves the string unchanged. */
  lemma {:induction false} ReplaceAbsent(s: string, pat: string, rep: string)
    requires pat != [] && !Contains(s, pat)
    ensures ReplaceAll(s, pat, rep) == s
    decreases |s|
  {
    if |s| >= |pat| {
      ReplaceAbsent(s[1..], pat, rep);
    }
  }

  /** Replacing a non-empty string inside itself yields exactly `rep`. */
  lemma ReplaceWhole(s: string, rep: string)
    requires s != []
    ensures ReplaceAll(s, s, rep) == rep
  {
    assert s[|s|..] == [];
  }

  /** A pattern ending in `c` cannot match at the head of a longer `s` whose
      only `c` is its last character, so `replace` keeps `s[0]`. */
  lemma ReplaceSkipHead(s: string, pat: string, rep: string, c: char)
    requires 0 < |pat| < |s|
    requires pat[|pat| - 1] == c
    requires forall i :: 0 <= i < |s| - 1 ==> s[i] != c
    ensures ReplaceAll(s, pat, rep) == [s[0]] + ReplaceAll(s[1..], pat, rep)
  {
    assert s[..|pat|][|pat| - 1] == s[|pat| - 1] != c;
  }

  /** When `s` is `pre + pat`, and `pat` ends in a character `c` found
      nowhere else in `s`, the only match is that suffix: `replace` then
      edits just the tail of `s`. */
  lemma {:induction false} ReplaceAnchoredSuffix(s: string, pre: string, pat: string, rep: string, c: char)
    requires s == pre + pat && pat != []
    requires pat[|pat| - 1] == c
    requires forall i :: 0 <= i < |s| - 1 ==> s[i] != c
    ensures ReplaceAll(s, pat, rep) == pre + rep
    decreases |pre|
  {
    if pre == [] {
      assert s[..|pat|] == pat;
      assert s[|pat|..] == [];
    } else {
      var t := s[1..];
      ReplaceSkipHead(s, pat, rep, c);
      assert t == pre[1..] + pat;
      assert forall i :: 0 <= i < |t| - 1 ==> t[i] != c by {
        forall i | 0 <= i < |t| - 1 ensures t[i] != c { assert t[i] == s[i + 1]; }
      }
      ReplaceAnchoredSuffix(t, pre[1..], pat, rep, c);
      assert [s[0]] + (pre[1..] + rep) == pre + rep;
    }
  }

  /** One step of `replace` at a position where `pat` does not start. */
  lemma ReplaceSkip(s: string, pat: string, rep: string)
    requires pat != [] && s != []
    requires |s| < |pat| || s[..|pat|] != pat
    ensures ReplaceAll(s, pat, rep) == [s[0]] + ReplaceAll(s[1..], pat, rep)
  {
    if |s| < |pat| {
      assert ReplaceAll(s[1..], pat, rep) == s[1..];
    }
  }

  /** One step of `replace` at a position where `pat` starts. */
  lemma ReplaceMatch(s: string, pat: string, rep: string)
    requires pat != [] && |pat| <= |s| && s[..|pat|] == pat
    ensures ReplaceAll(s, pat, rep) == rep + ReplaceAll(s[|pat|..], pat, rep)
  {
  }

  /** A character that does not occur in `pat` splits `replace` in two: no
      match can cover it. */
  lemma {:induction false} ReplaceAcross(a: string, c: char, b: string, pat: string, rep: string)
    requires pat != [] && c !in pat
    ensures ReplaceAll(a + [c] + b, pat, rep) == ReplaceAll(a, pat, rep) + [c] + ReplaceAll(b, pat, rep)
    decreases |a|, 1
  {
    var s := a + [c] + b;
    if a == [] {
      assert s == [c] + b;
      assert ReplaceAll(a, pat, rep) == [];
      assert |s| < |pat| || s[..|pat|][0] != pat[0];
      ReplaceSkip(s, pat, rep);
      assert s[1..] == b;
    } else if |s| >= |pat| && s[..|pat|] == pat {
      ReplaceAcrossMatch(a, c, b, pat, rep);
    } else {
      ReplaceAcrossSkip(a, c, b, pat, rep);
    }
  }

  lemma {:induction false} ReplaceAcrossMatch(a: string, c: char, b: string, pat: string, rep: string)
    requires pat != [] && c !in pat && a != []
    requires var s := a + [c] + b; |s| >= |pat| && s[..|pat|] == pat
    ensures ReplaceAll(a + [c] + b, pat, rep) == ReplaceAll(a, pat, rep) + [c] + ReplaceAll(b, pat, rep)
    decreases |a|, 0
  {
    var s := a + [c] + b;
    forall j | 0 <= j < |pat| ensures s[j] != c {
      assert s[j] == pat[j];
    }
    assert s[|a|] == c;
    assert a[..|pat|] == pat;
    ReplaceMatch(a, pat, rep);
    assert s[|pat|..] == a[|pat|..] + [c] + b;
    ReplaceMatch(s, pat, rep);
    ReplaceAcross(a[|pat|..], c, b, pat, rep);
  }

  lemma {:induction false} ReplaceAcrossSkip(a: string, c: char, b: string, pat: string, rep: string)
    requires pat != [] && c !in pat && a != []
    requires var s := a + [c] + b; |s| < |pat| || s[..|pat|] != pat
    ensures ReplaceAll(a + [c] + b, pat, rep) == ReplaceAll(a, pat, rep) + [c] + ReplaceAll(b, pat, rep)
    decreases |a|, 0
  {
    var s := a + [c] + b;
    assert s[1..] == a[1..] + [c] + b;
    ReplaceSkip(s, pat, rep);
    ReplaceAcross(a[1..], c, b, pat, rep);
    assert |a| < |pat| || a[..|pat|] == s[..|pat|];
    ReplaceSkip(a, pat, rep);
  }

  /** Python's `s.split(pat)` for a non-empty pattern: the pieces between
      the occurrences of `pat` found by a left-to-right scan without
      overlap. */
  function SplitOn(s: string, pat: string): (r: seq<string>)
    requires pat != []
    ensures |r| >= 1
    decreases |s|
  {
    if |s| < |pat| then [s]
    else if s[..|pat|] == pat then [[]] + SplitOn(s[|pat|..], pat)
    else
      var t := SplitOn(s[1..], pat);
      [[s[0]] + t[0]] + t[1..]
  }

  /** Putting a character in front of the first segment puts it in front
      of the joined text. */
  lemma JoinConsFirst(c: char, segs: seq<string>, glue: string)
    requires |segs| >= 1
    ensures Join([[c] + segs[0]] + segs[1..], glue) == [c] + Join(segs, glue)
  {
    var r := [[c] + segs[0]] + segs[1..];
    assert r[1..] == segs[1..];
  }

  /** An empty first segment contributes just the glue. */
  lemma JoinConsEmpty(segs: seq<string>, glue: string)
    requires |segs| >= 1
    ensures Join([[]] + segs, glue) == glue + Join(segs, glue)
  {
    assert ([[]] + segs)[1..] == segs;
  }

  /** The pieces of `s.split(pat)` joined with `pat` give back `s`. */
  lemma {:induction false} SplitOnJoin(s: string, pat: string)
    requires pat != []
    ensures Join(SplitOn(s, pat), pat) == s
    decreases |s|
  {
    if |s| < |pat| {
    } else if s[..|pat|] == pat {
      var t := SplitOn(s[|pat|..], pat);
      assert SplitOn(s, pat) == [[]] + t;
      SplitOnJoin(s[|pat|..], pat);
      JoinConsEmpty(t, pat);
      assert s == s[..|pat|] + s[|pat|..];
    } else {
      var t := SplitOn(s[1..], pat);
      assert SplitOn(s, pat) == [[s[0]] + t[0]] + t[1..];
      SplitOnJoin(s[1..], pat);
      JoinConsFirst(s[0], t, pat);
      assert s == [s[0]] + s[1..];
    }
  }

  /** The first piece of `s.split(pat)` is a prefix of `s`. */
  lemma {:induction false} SplitOnFirstIsPrefix(s: string, pat: string)
    requires pat != []
    ensures var p := SplitOn(s, pat)[0];
      |p| <= |s| && s[..|p|] == p
    decreases |s|
  {
    if |s| >= |pat| && s[..|pat|] != pat {
      SplitOnFirstIsPrefix(s[1..], pat);
    }
  }

  /** No piece of `s.split(pat)` contains `pat`. */
  lemma {:induction false} SplitOnPieces(s: string, pat: string, k: nat)
    requires pat != [] && k < |SplitOn(s, pat)|
    ensures !Contains(SplitOn(s, pat)[k], pat)
    decreases |s|
  {
    var r := SplitOn(s, pat);
    if |s| < |pat| {
      ContainsIff(s, pat);
    } else if s[..|pat|] == pat {
      if k == 0 {
        ContainsIff([], pat);
      } else {
        assert r[k] == SplitOn(s[|pat|..], pat)[k - 1];
        SplitOnPieces(s[|pat|..], pat, k - 1);
      }
    } else {
      var t := SplitOn(s[1..], pat);
      if k == 0 {
        var p := [s[0]] + t[0];
        SplitOnPieces(s[1..], pat, 0);
        SplitOnFirstIsPrefix(s[1..], pat);
        NoMatchAtHead(s, p, pat);
      } else {
        assert r[k] == t[k];
        SplitOnPieces(s[1..], pat, k);
      }
    }
  }

  /** `p` = `s[0]` followed by a prefix of `s[1..]` free of `pat`: when
      `pat` does not start `s`, it does not occur in `p` either. */
  lemma NoMatchAtHead(s: string, p: string, pat: string)
    requires |s| > 0 && |p| > 0 && |p| <= |s| && s[..|p|] == p
    requires |s| >= |pat| && s[..|pat|] != pat
    requires !Contains(p[1..], pat)
    ensures !Contains(p, pat)
  {
    ContainsIff(p, pat);
    ContainsIff(p[1..], pat);
    forall i: nat ensures !OccursAt(p, pat, i) {
      if i == 0 {
        if |pat| <= |p| { assert s[..|pat|] == p[..|pat|]; }
      } else {
        OccursAtShift(p, pat, i - 1);
      }
    }
  }

  /** `s.replace(pat, rep) == rep.join(s.split(pat))` for every non-empty
      pattern: `replace` cuts `s` exactly where `split` does. */
  lemma {:induction false} ReplaceIsJoinOfSplit(s: string, pat: string, rep: string)
    requires pat != []
    ensures ReplaceAll(s, pat, rep) == Join(SplitOn(s, pat), rep)
    decreases |s|
  {
    if |s| < |pat| {
    } else if s[..|pat|] == pat {
      var t := SplitOn(s[|pat|..], pat);
      assert SplitOn(s, pat) == [[]] + t;
      assert ReplaceAll(s, pat, rep) == rep + ReplaceAll(s[|pat|..], pat, rep);
      ReplaceIsJoinOfSplit(s[|pat|..], pat, rep);
      JoinConsEmpty(t, rep);
    } else {
      var t := SplitOn(s[1..], pat);
      assert SplitOn(s, pat) == [[s[0]] + t[0]] + t[1..];
      assert ReplaceAll(s, pat, rep) == [s[0]] + ReplaceAll(s[1..], pat, rep);
      ReplaceIsJoinOfSplit(s[1..], pat, rep);
      JoinConsFirst(s[0], t, rep);
    }
  }

  /** The cuts are leftmost: no occurrence of `pat` starts inside a piece
      that is followed by another piece (there the text after the piece is
      `pat` itself). Together with `SplitOnJoin` and `SplitOnPieces` this
      fixes the pieces. */
  lemma {:induction false} SplitOnLeftmost(s: string, pat: string, k: nat)
    requires pat != [] && k + 1 < |SplitOn(s, pat)|
    ensures !Contains(SplitOn(s, pat)[k] + pat[..|pat| - 1], pat)
    decreases |s|
  {
    var r := SplitOn(s, pat);
    var m := |pat| - 1;
    if s[..|pat|] == pat {
      var t := SplitOn(s[|pat|..], pat);
      assert r == [[]] + t;
      if k == 0 {
        ContainsIff(r[0] + pat[..m], pat);
      } else {
        assert r[k] == t[k - 1];
        SplitOnLeftmost(s[|pat|..], pat, k - 1);
      }
    } else {
      var t := SplitOn(s[1..], pat);
      assert r == [[s[0]] + t[0]] + t[1..];
      if k == 0 {
        SplitOnLeftmost(s[1..], pat, 0);
        SplitOnJoin(s[1..], pat);
        assert Join(t, pat) == t[0] + pat + Join(t[1..], pat);
        LeftmostCons(s, pat, t[0], Join(t[1..], pat));
        assert r[0] + pat[..m] == [s[0]] + (t[0] + pat[..m]);
      } else {
        assert r[k] == t[k];
        SplitOnLeftmost(s[1..], pat, k);
      }
    }
  }

  /** A character that does not start `pat` keeps the first piece clear of
      `pat` when it is put in front of it. */
  lemma LeftmostCons(s: string, pat: string, x: string, rest: string)
    requires pat != [] && |s| >= |pat| && s[..|pat|] != pat
    requires s != [] && s[1..] == x + pat + rest
    requires !Contains(x + pat[..|pat| - 1], pat)
    ensures !Contains([s[0]] + (x + pat[..|pat| - 1]), pat)
  {
    var m := |pat| - 1;
    var p := [s[0]] + (x + pat[..m]);
    assert |p| <= |s|;
    assert s[..|p|] == p by {
      assert s == [s[0]] + s[1..];
      assert s[1..][..|x| + m] == x + pat[..m];
    }
    assert p[1..] == x + pat[..m];
    NoMatchAtHead(s, p, pat);
  }

  /** For a one-character separator the general split is `Split`. */
  lemma SplitOnChar(s: string, sep: char)
    ensures SplitOn(s, [sep]) == Split(s, sep)
  {
    var r := SplitOn(s, [sep]);
    forall k | 0 <= k < |r| ensures sep !in r[k] {
      SplitOnPieces(s, [sep], k);
      ContainsIff(r[k], [sep]);
      forall i | 0 <= i < |r[k]| ensures r[k][i] != sep {
        assert r[k][i..i + 1] == [r[k][i]];
        assert !OccursAt(r[k], [sep], i);
      }
    }
    SplitOnJoin(s, [sep]);
    SplitUnique(r, s, sep);
  }
}
