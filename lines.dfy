/** A text file as Python's `readlines()` sees it, and the file that a
    sequence of `write()` calls produces. */
module Lines {
  import PyStr

  /** A line as `readlines()` yields it: non-empty, with a newline at most
      as its final character. */
  predicate IsLine(l: string)
  {
    |l| > 0 && forall i :: 0 <= i < |l| - 1 ==> l[i] != '\n'
  }

  /** The line ends in a newline (every line but possibly the last does). */
  predicate Terminated(l: string)
  {
    |l| > 0 && l[|l| - 1] == '\n'
  }

  /** What `write()` calls leave in a freshly truncated file: their
      arguments, one after another, that is `"".join(pieces)`. */
  function Concat(pieces: seq<string>): string
  {
    PyStr.Join(pieces, "")
  }

  lemma ConcatCons(pieces: seq<string>)
    requires pieces != []
    ensures Concat(pieces) == pieces[0] + Concat(pieces[1..])
  {
  }

  lemma ConcatSnoc(pieces: seq<string>, x: string)
    ensures Concat(pieces + [x]) == Concat(pieces) + x
  {
    if pieces == [] {
      assert pieces + [x] == [x];
    } else {
      PyStr.JoinSnoc(pieces, x, "");
    }
  }

  /** Length of the first line of `t`: up to and including the first
      newline, or the whole text when there is none. */
  function FirstLineLength(t: string): (k: nat)
    requires t != []
    ensures 1 <= k <= |t|
    ensures IsLine(t[..k])
    ensures k < |t| ==> t[k - 1] == '\n'
  {
    if t[0] == '\n' || |t| == 1 then 1 else 1 + FirstLineLength(t[1..])
  }

  /** Python's `f.readlines()` on a file holding `t`. */
  function ReadLines(t: string): seq<string>
    decreases |t|
  {
    if t == [] then []
    else
      var k := FirstLineLength(t);
      [t[..k]] + ReadLines(t[k..])
  }

  /** The `i`-th line `readlines()` yields has a newline at most at its
      end, and at its end when another line follows. */
  lemma {:induction false} ReadLinesLine(t: string, i: nat)
    requires i < |ReadLines(t)|
    ensures IsLine(ReadLines(t)[i])
    ensures i < |ReadLines(t)| - 1 ==> Terminated(ReadLines(t)[i])
    decreases |t|
  {
    var k := FirstLineLength(t);
    var rest := ReadLines(t[k..]);
    assert ReadLines(t) == [t[..k]] + rest;
    if i == 0 {
      if |rest| > 0 { assert t[k..] != []; }
    } else {
      ReadLinesLine(t[k..], i - 1);
    }
  }

  /** The last line is newline-terminated exactly when the file ends in a
      newline, and there is no line exactly when the file is empty. */
  lemma {:induction false} ReadLinesLast(t: string)
    ensures var lines := ReadLines(t);
      && (|lines| == 0 <==> t == [])
      && (|lines| > 0 ==> (Terminated(lines[|lines| - 1]) <==> t[|t| - 1] == '\n'))
    decreases |t|
  {
    if t != [] {
      var k := FirstLineLength(t);
      var rest := ReadLines(t[k..]);
      ReadLinesLast(t[k..]);
      assert ReadLines(t) == [t[..k]] + rest;
      if rest == [] {
        assert t[..k] == t;
      } else {
        assert t[k..][|t[k..]| - 1] == t[|t| - 1];
      }
    }
  }

  /** `readlines()` yields lines with a newline at most at their end, all
      but the last of them newline-terminated; it yields none exactly for
      an empty file, and the last line is terminated exactly when the file
      ends in a newline. */
  lemma ReadLinesShape(t: string)
    ensures var lines := ReadLines(t);
      && (forall i :: 0 <= i < |lines| ==> IsLine(lines[i]))
      && (forall i :: 0 <= i < |lines| - 1 ==> Terminated(lines[i]))
      && (|lines| == 0 <==> t == [])
      && (|lines| > 0 ==> (Terminated(lines[|lines| - 1]) <==> t[|t| - 1] == '\n'))
  {
    forall i | 0 <= i < |ReadLines(t)| ensures IsLine(ReadLines(t)[i]) {
      ReadLinesLine(t, i);
    }
    forall i | 0 <= i < |ReadLines(t)| - 1 ensures Terminated(ReadLines(t)[i]) {
      ReadLinesLine(t, i);
    }
    ReadLinesLast(t);
  }

  /** Reading the lines of a file and writing them back one after another
      reproduces the file byte for byte. */
  lemma {:induction false} ReadLinesConcat(t: string)
    ensures Concat(ReadLines(t)) == t
    decreases |t|
  {
    if t != [] {
      var k := FirstLineLength(t);
      var lines := ReadLines(t);
      assert lines == [t[..k]] + ReadLines(t[k..]);
      calc {
        Concat(lines);
        { ConcatCons(lines); }
        lines[0] + Concat(lines[1..]);
        { assert lines[1..] == ReadLines(t[k..]); ReadLinesConcat(t[k..]); }
        t[..k] + t[k..];
        t;
      }
    }
  }

  /** A substring of any one line is a substring of the whole file. */
  lemma {:induction false} LineInConcat(pieces: seq<string>, i: nat, sub: string)
    requires i < |pieces|
    requires PyStr.Contains(pieces[i], sub)
    ensures PyStr.Contains(Concat(pieces), sub)
    decreases |pieces|
  {
    ConcatCons(pieces);
    if i == 0 {
      PyStr.ContainsInfix([], pieces[0], Concat(pieces[1..]), sub);
      assert [] + pieces[0] + Concat(pieces[1..]) == Concat(pieces);
    } else {
      LineInConcat(pieces[1..], i - 1, sub);
      PyStr.ContainsInfix(pieces[0], Concat(pieces[1..]), [], sub);
      assert pieces[0] + Concat(pieces[1..]) + [] == Concat(pieces);
    }
  }
}
