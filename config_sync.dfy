/** `write_in_config`: the write-back of the role ARN and the cluster
    endpoint into the `dwh.cfg` configuration file. The file is read as a
    list of lines; a line containing "ARN" has its value segment (what
    follows its last '=') replaced by the ARN, otherwise a line containing
    "HOST" has it replaced by the endpoint, and every other line is written
    back as it was. */
module ConfigSync {
  import opened PyStr
  import opened Lines

  /** `line.split("=")[-1]`: the segment after the last '='. */
  function ValueSegment(line: string): string
  {
    LastSegment(line, '=')
  }

  /** The text of `line` up to and including its last '=' (empty when the
      line has no '='). */
  function KeyPart(line: string): (key: string)
    ensures key + ValueSegment(line) == line
    ensures key == [] <==> '=' !in line
    ensures key != [] ==> key[|key| - 1] == '='
    ensures '=' !in line[|key|..]
  {
    LastSegmentIsTail(line, '=');
    line[..|line| - |ValueSegment(line)|]
  }

  /** The line is one the write-back touches: a case-sensitive substring
      test for "ARN" or "HOST" anywhere in it. */
  predicate Matched(line: string)
  {
    Contains(line, "ARN") || Contains(line, "HOST")
  }

  /** The value a matched line is given: the ARN test comes first. */
  function ValueFor(line: string, arn: string, endpoint: string): string
  {
    if Contains(line, "ARN") then arn else endpoint
  }

  /** The text `write_in_config` writes for one line, as written: Python's
      `line.replace(line.split("=")[-1], value + "\n")`. */
  function RewriteLine(line: string, arn: string, endpoint: string): string
  {
    if Contains(line, "ARN") then ReplaceAll(line, ValueSegment(line), arn + "\n")
    else if Contains(line, "HOST") then ReplaceAll(line, ValueSegment(line), endpoint + "\n")
    else line
  }

  /** The texts written for all lines, in order. */
  function RewriteLines(lines: seq<string>, arn: string, endpoint: string): seq<string>
  {
    seq(|lines|, i requires 0 <= i < |lines| => RewriteLine(lines[i], arn, endpoint))
  }

  lemma RewriteLinesPointwise(lines: seq<string>, out: seq<string>, arn: string, endpoint: string)
    requires |out| == |lines|
    requires forall i :: 0 <= i < |lines| ==> out[i] == RewriteLine(lines[i], arn, endpoint)
    ensures out == RewriteLines(lines, arn, endpoint)
  {
  }

  /** The content of `dwh.cfg` after the write-back, given its content before. */
  function WriteBack(cfgText: string, arn: string, endpoint: string): string
  {
    Concat(RewriteLines(ReadLines(cfgText), arn, endpoint))
  }

  /** `write_in_config(ARN, Endpoint)`: reads the lines of the file, then
      truncates it and writes one piece per line, in order. `written` is the
      sequence of `cfg.write` arguments and `newText` the resulting file. */
  method WriteInConfig(cfgText: string, arn: string, endpoint: string)
    returns (written: seq<string>, newText: string)
    ensures |written| == |ReadLines(cfgText)|
    ensures forall i :: 0 <= i < |written| ==>
      written[i] == RewriteLine(ReadLines(cfgText)[i], arn, endpoint)
    ensures newText == Concat(written) == WriteBack(cfgText, arn, endpoint)
  {
    var cfgLines := ReadLines(cfgText);
    written, newText := [], "";
    for n := 0 to |cfgLines|
      invariant |written| == n
      invariant forall i :: 0 <= i < n ==> written[i] == RewriteLine(cfgLines[i], arn, endpoint)
      invariant newText == Concat(written)
    {
      var line := cfgLines[n];
      var piece;
      if Contains(line, "ARN") {
        piece := ReplaceAll(line, LastSegment(line, '='), arn + "\n");
      } else if Contains(line, "HOST") {
        piece := ReplaceAll(line, LastSegment(line, '='), endpoint + "\n");
      } else {
        piece := line;
      }
      assert piece == RewriteLine(line, arn, endpoint);
      ConcatSnoc(written, piece);
      written, newText := written + [piece], newText + piece;
    }
    RewriteLinesPointwise(cfgLines, written, arn, endpoint);
  }

  /** A line containing neither "ARN" nor "HOST" is written back unchanged. */
  lemma UnmatchedLineUnchanged(line: string, arn: string, endpoint: string)
    requires !Contains(line, "ARN") && !Contains(line, "HOST")
    ensures RewriteLine(line, arn, endpoint) == line
  {
  }

  /** A line containing "ARN" gets the ARN whatever the endpoint is, even
      when it also contains "HOST". */
  lemma ArnTakesPrecedence(line: string, arn: string, endpoint1: string, endpoint2: string)
    requires Contains(line, "ARN")
    ensures RewriteLine(line, arn, endpoint1) == RewriteLine(line, arn, endpoint2)
  {
  }

  /** A matched line goes through `replace` with its value segment as the
      pattern and the chosen value and a newline as the replacement. */
  lemma MatchedLineReplace(line: string, arn: string, endpoint: string)
    requires Matched(line)
    ensures RewriteLine(line, arn, endpoint)
         == ReplaceAll(line, ValueSegment(line), ValueFor(line, arn, endpoint) + "\n")
  {
  }

  /** A newline-terminated matched line keeps everything through its last
      '=' and gets the new value followed by a newline. */
  lemma TerminatedLineRewrite(line: string, arn: string, endpoint: string)
    requires IsLine(line) && Terminated(line) && Matched(line)
    ensures RewriteLine(line, arn, endpoint) == KeyPart(line) + ValueFor(line, arn, endpoint) + "\n"
  {
    MatchedLineReplace(line, arn, endpoint);
    ReplaceTerminatedValue(line, ValueFor(line, arn, endpoint) + "\n");
  }

  /** In a newline-terminated line the value segment ends in the line's only
      newline, so `replace` edits the tail after the last '=' and nothing
      else. */
  lemma ReplaceTerminatedValue(line: string, v: string)
    requires IsLine(line) && Terminated(line)
    ensures ReplaceAll(line, ValueSegment(line), v) == KeyPart(line) + v
  {
    ReplaceAfterKey(line, KeyPart(line), ValueSegment(line), v);
  }

  /** The same, for any split of the line into a key part that is empty or
      ends in '=' and the rest. */
  lemma ReplaceAfterKey(line: string, key: string, seg: string, v: string)
    requires IsLine(line) && Terminated(line)
    requires line == key + seg
    requires key == [] || key[|key| - 1] == '='
    ensures ReplaceAll(line, seg, v) == key + v
  {
    assert |seg| > 0 by {
      assert line[|line| - 1] != '=';
    }
    assert seg[|seg| - 1] == line[|line| - 1];
    ReplaceAnchoredSuffix(line, key, seg, v, '\n');
  }

  /** A matched line with no '=' is its own value segment, so the whole line
      is replaced by the value and a newline. */
  lemma LineWithoutEqualsRewrite(line: string, arn: string, endpoint: string)
    requires Matched(line) && '=' !in line
    ensures RewriteLine(line, arn, endpoint) == ValueFor(line, arn, endpoint) + "\n"
  {
    LastSegmentIsTail(line, '=');
    assert ValueSegment(line) == line;
    assert line != [];
    ReplaceWhole(line, ValueFor(line, arn, endpoint) + "\n");
  }

  /** A matched line ending in '=' (only possible as the file's last line,
      without a newline) has an empty value segment; Python then inserts
      the value and a newline at every position of the line. */
  lemma EmptyValueRewrite(line: string, arn: string, endpoint: string)
    requires Matched(line) && |line| > 0 && line[|line| - 1] == '='
    ensures var r := RewriteLine(line, arn, endpoint);
      var v := ValueFor(line, arn, endpoint) + "\n";
      && r == InsertEverywhere(line, v)
      && |r| == |line| + (|line| + 1) * |v|
      && |r| > |KeyPart(line) + v|
  {
    LastSegmentIsTail(line, '=');
    assert ValueSegment(line) == [];
    var v := ValueFor(line, arn, endpoint) + "\n";
    var r := InsertEverywhere(line, v);
    InsertEverywhereShape(line, v);
    assert RewriteLine(line, arn, endpoint) == ReplaceAll(line, [], v) == r;
    MulAtLeastTwice(|line| + 1, |v|);
    assert |KeyPart(line)| <= |line|;
  }

  lemma MulAtLeastTwice(n: nat, m: nat)
    requires n >= 2
    ensures n * m >= 2 * m
  {
  }

  /** On a matched line with an '=' and a non-empty value segment — the
      last line of a file without a newline included — `replace` works on
      the text before the last '=' and on the segment separately, since no
      occurrence of the segment can cover that '='. The segment becomes the
      value and a newline; any earlier occurrence of it is replaced too. */
  lemma ValueSegmentRewrite(line: string, arn: string, endpoint: string)
    requires Matched(line) && '=' in line && ValueSegment(line) != []
    ensures var key := KeyPart(line);
      var v := ValueFor(line, arn, endpoint) + "\n";
      RewriteLine(line, arn, endpoint) == ReplaceAll(key[..|key| - 1], ValueSegment(line), v) + "=" + v
  {
    MatchedLineReplace(line, arn, endpoint);
    ReplaceAfterEquals(line, KeyPart(line), ValueSegment(line), ValueFor(line, arn, endpoint) + "\n");
  }

  /** `(pre + "=" + seg).replace(seg, v)` for a non-empty `seg` without '='. */
  lemma ReplaceAfterEquals(line: string, key: string, seg: string, v: string)
    requires line == key + seg && key != [] && key[|key| - 1] == '='
    requires seg != [] && '=' !in seg
    ensures ReplaceAll(line, seg, v) == ReplaceAll(key[..|key| - 1], seg, v) + "=" + v
  {
    assert line == key[..|key| - 1] + ['='] + seg;
    ReplaceAcross(key[..|key| - 1], '=', seg, seg, v);
    ReplaceWhole(seg, v);
  }

  /** When the old value does not occur in the text before it, the line
      keeps that text and gets the value and a newline, whether or not it
      ended in a newline. */
  lemma UnrepeatedValueRewrite(line: string, arn: string, endpoint: string)
    requires Matched(line) && '=' in line && ValueSegment(line) != []
    requires !Contains(KeyPart(line), ValueSegment(line))
    ensures RewriteLine(line, arn, endpoint) == KeyPart(line) + ValueFor(line, arn, endpoint) + "\n"
  {
    MatchedLineReplace(line, arn, endpoint);
    ReplaceUnrepeated(line, KeyPart(line), ValueSegment(line), ValueFor(line, arn, endpoint) + "\n");
  }

  /** `(key + seg).replace(seg, v)` when `key` ends in '=', `seg` has no
      '=' and `key` does not contain `seg`. */
  lemma ReplaceUnrepeated(line: string, key: string, seg: string, v: string)
    requires line == key + seg && key != [] && key[|key| - 1] == '='
    requires seg != [] && '=' !in seg
    requires !Contains(key, seg)
    ensures ReplaceAll(line, seg, v) == key + v
  {
    ReplaceAfterEquals(line, key, seg, v);
    ContainsPrefix(key[..|key| - 1], ['='], seg);
    assert key[..|key| - 1] + ['='] == key;
    ReplaceAbsent(key[..|key| - 1], seg, v);
  }

  /** A newline-terminated `key=oldValue` line becomes `key=<value>`, where the
      value is the ARN or the endpoint as `ValueFor` picks it. */
  lemma KeyValueLine(key: string, oldValue: string, arn: string, endpoint: string)
    requires Matched(key + "=" + oldValue + "\n")
    requires '\n' !in key && '\n' !in oldValue && '=' !in oldValue
    ensures var line := key + "=" + oldValue + "\n";
      RewriteLine(line, arn, endpoint) == key + "=" + ValueFor(line, arn, endpoint) + "\n"
  {
    var line := key + "=" + oldValue + "\n";
    assert line == (key + "=") + (oldValue + "\n");
    SegmentAfterKey(key + "=", oldValue + "\n");
    assert IsLine(line) by {
      forall i | 0 <= i < |line| - 1 ensures line[i] != '\n' {
        if i < |key| { assert line[i] == key[i]; }
        else if i > |key| { assert line[i] == oldValue[i - |key| - 1]; }
      }
    }
    TerminatedLineRewrite(line, arn, endpoint);
  }

  /** `ARN=old` on a newline-terminated line becomes `ARN=<arn>`. */
  lemma ArnLineExample(line: string, arn: string, endpoint: string)
    requires line == "ARN=old\n"
    ensures RewriteLine(line, arn, endpoint) == "ARN=" + arn + "\n"
  {
    OccursThenContains(line, "ARN", 0);
    assert line == "ARN" + "=" + "old" + "\n";
    KeyValueLine("ARN", "old", arn, endpoint);
  }

  /** `HOST=old` on a newline-terminated line becomes `HOST=<endpoint>`. */
  lemma HostLineExample(line: string, arn: string, endpoint: string)
    requires line == "HOST=old\n"
    ensures RewriteLine(line, arn, endpoint) == "HOST=" + endpoint + "\n"
  {
    OccursThenContains(line, "HOST", 0);
    AbsentFirstChar(line, "ARN");
    assert ValueFor(line, arn, endpoint) == endpoint;
    assert line == "HOST" + "=" + "old" + "\n";
    KeyValueLine("HOST", "old", arn, endpoint);
  }

  /** Matching is a case-sensitive substring test: `WARNING=x` contains
      "ARN", so it is taken for an ARN line. */
  lemma WarningLineMatched(line: string, arn: string, endpoint: string)
    requires line == "WARNING=x\n"
    ensures RewriteLine(line, arn, endpoint) == "WARNING=" + arn + "\n"
  {
    OccursThenContains(line, "ARN", 1);
    assert line == "WARNING" + "=" + "x" + "\n";
    KeyValueLine("WARNING", "x", arn, endpoint);
  }

  /** Matching is case-sensitive: `host=h` is not a HOST line and is written
      back unchanged. */
  lemma LowercaseHostUnmatched(line: string, arn: string, endpoint: string)
    requires line == "host=h\n"
    ensures RewriteLine(line, arn, endpoint) == line
  {
    AbsentFirstChar(line, "ARN");
    AbsentFirstChar(line, "HOST");
  }

  /** Writing back a file in which neither "ARN" nor "HOST" occurs leaves
      it byte for byte unchanged. */
  lemma {:induction false} PlainFileUnchanged(cfgText: string, arn: string, endpoint: string)
    requires !Contains(cfgText, "ARN") && !Contains(cfgText, "HOST")
    ensures WriteBack(cfgText, arn, endpoint) == cfgText
  {
    var lines := ReadLines(cfgText);
    ReadLinesConcat(cfgText);
    forall i | 0 <= i < |lines| ensures RewriteLine(lines[i], arn, endpoint) == lines[i] {
      if Contains(lines[i], "ARN") { LineInConcat(lines, i, "ARN"); }
      if Contains(lines[i], "HOST") { LineInConcat(lines, i, "HOST"); }
    }
    assert RewriteLines(lines, arn, endpoint) == lines;
  }

  /** The intended write-back of one line: keep the text through the last
      '=', then the new value and a newline. */
  function RewriteLineAnchored(line: string, arn: string, endpoint: string): (r: string)
    ensures !Matched(line) ==> r == line
    ensures Matched(line) && '=' in line && '=' !in ValueFor(line, arn, endpoint) ==>
      KeyPart(r) == KeyPart(line) && ValueSegment(r) == ValueFor(line, arn, endpoint) + "\n"
  {
    if Matched(line) then
      var key := KeyPart(line);
      var v := ValueFor(line, arn, endpoint) + "\n";
      var r := key + v;
      if '=' in line && '=' !in v then
        SegmentAfterKey(key, v);
        r
      else r
    else line
  }

  /** Reading the value back from `key + v`, where `key` ends in '=' and `v`
      has none, gives `v` and `key`. */
  lemma SegmentAfterKey(key: string, v: string)
    requires key != [] && key[|key| - 1] == '=' && '=' !in v
    ensures ValueSegment(key + v) == v && KeyPart(key + v) == key
  {
    var r := key + v;
    var seg := ValueSegment(r);
    LastSegmentIsTail(r, '=');
    assert r[|key| - 1] == '=';
    assert seg == r[|key|..] == v;
  }

  /** On a newline-terminated line the code as written and the intended
      rewrite agree. */
  lemma AnchoredAgreesOnTerminatedLines(line: string, arn: string, endpoint: string)
    requires IsLine(line) && Terminated(line)
    ensures RewriteLine(line, arn, endpoint) == RewriteLineAnchored(line, arn, endpoint)
  {
    if Matched(line) { TerminatedLineRewrite(line, arn, endpoint); }
  }

  /** In every file, the write-back keeps every unmatched line and on every
      matched line replaces exactly the value after the last '=', except
      possibly on a last line without a newline; so for a file that ends in
      a newline (or is empty) it does so on every line. */
  lemma {:induction false} AnchoredWriteBack(cfgText: string, arn: string, endpoint: string)
    ensures var lines := ReadLines(cfgText);
      var out := RewriteLines(lines, arn, endpoint);
      && |out| == |lines|
      && (forall i :: 0 <= i < |lines| - 1 ==> out[i] == RewriteLineAnchored(lines[i], arn, endpoint))
      && (cfgText == [] || Terminated(cfgText) ==>
            forall i :: 0 <= i < |lines| ==> out[i] == RewriteLineAnchored(lines[i], arn, endpoint))
  {
    var lines := ReadLines(cfgText);
    var out := RewriteLines(lines, arn, endpoint);
    ReadLinesLast(cfgText);
    forall i | 0 <= i < |lines| && (i < |lines| - 1 || Terminated(cfgText))
      ensures out[i] == RewriteLineAnchored(lines[i], arn, endpoint)
    {
      ReadLinesLine(cfgText, i);
      assert Terminated(lines[i]);
      AnchoredAgreesOnTerminatedLines(lines[i], arn, endpoint);
    }
  }

  /** On the last line of a file without a final newline, the code as
      written also replaces occurrences of the old value inside the key:
      `ARN=A` becomes `<arn>\nRN=<arn>\n`, where `ARN=<arn>\n` was meant. */
  lemma FinalLineQuirk(line: string, arn: string, endpoint: string)
    requires line == "ARN=A"
    ensures RewriteLine(line, arn, endpoint) == arn + "\nRN=" + arn + "\n"
    ensures RewriteLineAnchored(line, arn, endpoint) == "ARN=" + arn + "\n"
  {
    OccursThenContains(line, "ARN", 0);
    assert line == "ARN=" + "A";
    SegmentAfterKey("ARN=", "A");
    MatchedLineReplace(line, arn, endpoint);
    ReplaceInQuirkLine(line, arn + "\n");
  }

  /** `"ARN=A".replace("A", rep)`, one character at a time. */
  lemma ReplaceInQuirkLine(line: string, rep: string)
    requires line == "ARN=A"
    ensures ReplaceAll(line, "A", rep) == rep + "RN=" + rep
  {
    assert ReplaceAll(line[5..], "A", rep) == "";
    assert line[4..][1..] == line[5..];
    assert ReplaceAll(line[4..], "A", rep) == rep;
    assert line[3..][0] == '=' && line[3..][1..] == line[4..];
    assert ReplaceAll(line[3..], "A", rep) == "=" + rep;
    assert line[2..][0] == 'N' && line[2..][1..] == line[3..];
    assert ReplaceAll(line[2..], "A", rep) == "N=" + rep;
    assert line[1..][0] == 'R' && line[1..][1..] == line[2..];
    assert ReplaceAll(line[1..], "A", rep) == "RN=" + rep;
  }

}
