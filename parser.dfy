/**
 * The `.env` line parser: split the text on newlines, trim each line, skip blank
 * and `#` comment lines, split the rest at the first `=`, trim both halves and
 * insert them into a map in which the last occurrence of a key wins. A line with
 * no `=` aborts the whole parse.
 */
module Parser {
  import opened Wrappers
  import opened Bytes

  /** The error of a malformed line, carrying the line's trimmed text. */
  datatype ParseError = MalformedLine(line: string)

  const MessagePrefix: string := "error parsing line: "

  /** The text of the error the parser returns: a fixed prefix, then the offending line. */
  function Message(e: ParseError): (m: string)
    ensures |m| == |MessagePrefix| + |e.line|
    ensures m[..|MessagePrefix|] == MessagePrefix && m[|MessagePrefix|..] == e.line
  {
    MessagePrefix + e.line
  }

  /** What one raw line of the file contributes. */
  datatype Line = Skip | Pair(key: string, value: string) | Malformed(text: string)

  /**
   * Classifies one line: blank or comment after trimming, a trimmed key/value
   * pair split at the first `=`, or a malformed line (its trimmed text).
   */
  function ClassifyLine(line: string): (l: Line)
    ensures l.Skip? <==> TrimSpace(line) == [] || TrimSpace(line)[0] == '#'
    ensures l.Malformed? <==> TrimSpace(line) != [] && TrimSpace(line)[0] != '#' && '=' !in TrimSpace(line)
    ensures l.Malformed? ==> l.text == TrimSpace(line)
    ensures l.Pair? ==> NoEdgeSpace(l.key) && NoEdgeSpace(l.value) && '=' !in l.key
  {
    var t := TrimSpace(line);
    if |t| == 0 || t[0] == '#' then Skip
    else match SplitAtFirst(t, '=')
      case None => Malformed(t)
      case Some(parts) =>
        assert '=' !in TrimSpace(parts.0) by {
          if '=' in TrimSpace(parts.0) {
            var k := TrimSpaceSplits(parts.0);
          }
        }
        Pair(TrimSpace(parts.0), TrimSpace(parts.1))
  }

  /** The parse state after one more classified line. */
  function Step(acc: Result<map<string, string>, ParseError>, l: Line): Result<map<string, string>, ParseError> {
    match acc
    case Failure(e) => Failure(e)
    case Success(m) =>
      match l
      case Skip => Success(m)
      case Malformed(t) => Failure(MalformedLine(t))
      case Pair(k, v) => Success(m[k := v])
  }

  /**
   * The parse of a sequence of classified lines, processed first to last: the
   * map the loop builds, or the error of the first malformed line.
   */
  function ParseLines(ls: seq<Line>): Result<map<string, string>, ParseError>
    decreases |ls|
  {
    if ls == [] then Success(map[]) else Step(ParseLines(ls[..|ls| - 1]), ls[|ls| - 1])
  }

  /** Classifies every line. */
  function Classify(lines: seq<string>): (ls: seq<Line>)
    ensures |ls| == |lines|
    ensures forall i :: 0 <= i < |lines| ==> ls[i] == ClassifyLine(lines[i])
  {
    seq(|lines|, i requires 0 <= i < |lines| => ClassifyLine(lines[i]))
  }

  /** The parse of a whole file. */
  function ParseText(data: string): Result<map<string, string>, ParseError> {
    ParseLines(Classify(Split(data, '\n')))
  }

  /** `Parse`: the source's line loop, filling the result map in place. */
  method Parse(data: string) returns (r: Result<map<string, string>, ParseError>)
    ensures r == ParseText(data)
  {
    var lines := Split(data, '\n');
    ghost var ls := Classify(lines);
    var result: map<string, string> := map[];
    for i := 0 to |lines|
      invariant ParseLines(ls[..i]) == Success(result)
    {
      assert ls[..i + 1][..i] == ls[..i];
      var trimmedLine := TrimSpace(lines[i]);
      if |trimmedLine| == 0 || trimmedLine[0] == '#' {
        continue;
      }
      var parts := SplitAtFirst(trimmedLine, '=');
      if parts.None? {
        FailureExtends(ls, i + 1);
        assert ls[..|ls|] == ls;
        return Failure(MalformedLine(trimmedLine));
      }
      var key := TrimSpace(parts.value.0);
      var value := TrimSpace(parts.value.1);
      result := result[key := value];
    }
    assert ls[..|ls|] == ls;
    return Success(result);
  }

  /** Once a prefix fails, every extension of it fails with the same error. */
  lemma {:induction false} FailureExtends(ls: seq<Line>, n: nat)
    requires n <= |ls|
    requires ParseLines(ls[..n]).Failure?
    ensures ParseLines(ls) == ParseLines(ls[..n])
    decreases |ls| - n
  {
    if n < |ls| {
      assert ls[..n + 1][..n] == ls[..n];
      FailureExtends(ls, n + 1);
    } else {
      assert ls[..n] == ls;
    }
  }

  /**
   * The parse fails exactly when some line is malformed, and then its error
   * carries the trimmed text of the first malformed line.
   */
  lemma {:induction false} ParseFailsAtFirstMalformed(ls: seq<Line>)
    ensures ParseLines(ls).Failure? <==> exists i :: 0 <= i < |ls| && ls[i].Malformed?
    ensures ParseLines(ls).Failure? ==>
      exists i :: 0 <= i < |ls| && ls[i].Malformed? &&
        ParseLines(ls).error == MalformedLine(ls[i].text) &&
        forall j :: 0 <= j < i ==> !ls[j].Malformed?
    decreases |ls|
  {
    if ls != [] {
      var n := |ls| - 1;
      var init := ls[..n];
      ParseFailsAtFirstMalformed(init);
      assert forall i :: 0 <= i < n ==> init[i] == ls[i];
      if ParseLines(init).Failure? {
        var i :| 0 <= i < n && init[i].Malformed? &&
          ParseLines(init).error == MalformedLine(init[i].text) &&
          forall j :: 0 <= j < i ==> !init[j].Malformed?;
        assert ls[i].Malformed?;
      } else if ls[n].Malformed? {
        assert forall j :: 0 <= j < n ==> !ls[j].Malformed?;
      } else {
        assert forall i :: 0 <= i < |ls| ==> !ls[i].Malformed?;
      }
    }
  }

  /** A blank or comment line may be inserted anywhere without changing the result. */
  lemma {:induction false} SkippedLineContributesNothing(before: seq<Line>, after: seq<Line>)
    ensures ParseLines(before + [Skip] + after) == ParseLines(before + after)
    decreases |after|
  {
    if after == [] {
      assert (before + [Skip] + after)[..|before|] == before;
      assert before + after == before;
    } else {
      var n := |after| - 1;
      var a := before + [Skip] + after;
      var b := before + after;
      assert a[..|a| - 1] == before + [Skip] + after[..n];
      assert b[..|b| - 1] == before + after[..n];
      SkippedLineContributesNothing(before, after[..n]);
    }
  }

  /** The keys of the entries that the lines define. */
  function DefinedKeys(ls: seq<Line>): set<string> {
    set i | 0 <= i < |ls| && ls[i].Pair? :: ls[i].key
  }

  /** Line `i` defines a key that no later line defines again. */
  predicate LastDefinition(ls: seq<Line>, i: int) {
    0 <= i < |ls| && ls[i].Pair? &&
    forall j :: i < j < |ls| && ls[j].Pair? ==> ls[j].key != ls[i].key
  }

  /** The keys defined by one more line. */
  lemma DefinedKeysSnoc(init: seq<Line>, l: Line)
    ensures DefinedKeys(init + [l]) == DefinedKeys(init) + (if l.Pair? then {l.key} else {})
  {
    var ls := init + [l];
    assert forall i :: 0 <= i < |init| ==> ls[i] == init[i];
    assert ls[|init|] == l;
  }

  /** A last definition among the lines before `l` stays one after `l` unless `l` redefines its key. */
  lemma LastDefinitionSnoc(init: seq<Line>, l: Line, i: int)
    requires LastDefinition(init + [l], i) && i < |init|
    ensures LastDefinition(init, i)
    ensures l.Pair? ==> l.key != init[i].key
  {
    var ls := init + [l];
    assert ls[i] == init[i];
    forall j | i < j < |init| && init[j].Pair? ensures init[j].key != init[i].key {
      assert ls[j] == init[j];
    }
    assert ls[|init|] == l;
  }

  /** One more successfully parsed line keeps the relation between the map and the lines. */
  lemma EntriesAfterStep(init: seq<Line>, l: Line, m0: map<string, string>)
    requires m0.Keys == DefinedKeys(init)
    requires forall i :: LastDefinition(init, i) ==> m0[init[i].key] == init[i].value
    requires Step(Success(m0), l).Success?
    ensures Step(Success(m0), l).value.Keys == DefinedKeys(init + [l])
    ensures forall i :: LastDefinition(init + [l], i) ==>
              Step(Success(m0), l).value[(init + [l])[i].key] == (init + [l])[i].value
  {
    var m := Step(Success(m0), l).value;
    var ls := init + [l];
    DefinedKeysSnoc(init, l);
    forall i | LastDefinition(ls, i) ensures m[ls[i].key] == ls[i].value {
      if i < |init| {
        LastDefinitionSnoc(init, l, i);
        assert ls[i] == init[i];
      } else {
        assert ls[i] == l;
      }
    }
  }

  /**
   * On success, the key set is exactly the set of keys of the pair lines, and
   * each key maps to the value of the LAST line defining it.
   */
  lemma {:induction false} ParsedEntries(ls: seq<Line>, m: map<string, string>)
    requires ParseLines(ls) == Success(m)
    ensures m.Keys == DefinedKeys(ls)
    ensures forall i :: LastDefinition(ls, i) ==> m[ls[i].key] == ls[i].value
    decreases |ls|
  {
    if ls != [] {
      var n := |ls| - 1;
      var init := ls[..n];
      assert init + [ls[n]] == ls;
      var m0 := ParseLines(init).value;
      ParsedEntries(init, m0);
      EntriesAfterStep(init, ls[n], m0);
    }
  }

  /** Keys and values of a successful parse carry no leading or trailing white space. */
  lemma ParsedEntriesTrimmed(data: string, m: map<string, string>)
    requires ParseText(data) == Success(m)
    ensures forall k :: k in m ==> NoEdgeSpace(k) && NoEdgeSpace(m[k])
  {
    var ls := Classify(Split(data, '\n'));
    ParsedEntries(ls, m);
    forall k | k in m ensures NoEdgeSpace(k) && NoEdgeSpace(m[k]) {
      var i :| 0 <= i < |ls| && ls[i].Pair? && ls[i].key == k;
      var last := LastOf(ls, i);
    }
  }

  /** The last line at or after `i` that defines the same key as line `i`. */
  lemma {:induction false} LastOf(ls: seq<Line>, i: nat) returns (last: nat)
    requires i < |ls| && ls[i].Pair?
    ensures LastDefinition(ls, last) && ls[last].key == ls[i].key
    decreases |ls| - i
  {
    if j :| i < j < |ls| && ls[j].Pair? && ls[j].key == ls[i].key {
      last := LastOf(ls, j);
    } else {
      last := i;
    }
  }

  /**
   * The parse of text assembled from newline-free lines is the parse of those
   * lines' classifications.
   */
  lemma ParseTextOfLines(data: string, lines: seq<string>, ls: seq<Line>)
    requires |lines| >= 1 && forall i :: 0 <= i < |lines| ==> '\n' !in lines[i]
    requires data == Join(lines, '\n')
    requires |ls| == |lines| && forall i :: 0 <= i < |lines| ==> ClassifyLine(lines[i]) == ls[i]
    ensures ParseText(data) == ParseLines(ls)
  {
    SplitJoin(lines, '\n');
    assert Classify(lines) == ls;
  }

  /** A key that is not blank, not a comment and has no `=`, and a value, both without white space at their edges. */
  predicate PlainPair(key: string, value: string) {
    key != [] && key[0] != '#' && NoEdgeSpace(key) && NoEdgeSpace(value) && '=' !in key
  }

  lemma PairLineNoEdgeSpace(key: string, value: string)
    requires PlainPair(key, value)
    ensures NoEdgeSpace(key + ['='] + value)
  {
    var line := key + ['='] + value;
    assert line[0] == key[0];
    if value != [] { assert line[|line| - 1] == value[|value| - 1]; }
    else { assert line[|line| - 1] == '='; }
  }

  /** `KEY=VALUE` with no white space at the edges and no `=` in the key classifies as that pair. */
  lemma ClassifyPlainPair(key: string, value: string)
    requires PlainPair(key, value)
    ensures ClassifyLine(key + ['='] + value) == Pair(key, value)
  {
    var line := key + ['='] + value;
    PairLineNoEdgeSpace(key, value);
    TrimSpaceOfTrimmed(line);
    TrimSpaceOfTrimmed(key);
    TrimSpaceOfTrimmed(value);
    ClassifyTrimmedPair(line, key, value);
  }

  lemma ClassifyTrimmedPair(line: string, key: string, value: string)
    requires key != [] && key[0] != '#' && '=' !in key
    requires line == key + ['='] + value
    requires TrimSpace(line) == line && TrimSpace(key) == key && TrimSpace(value) == value
    ensures ClassifyLine(line) == Pair(key, value)
  {
    SplitAtFirstUnique(key, '=', value);
  }

  /**
   * A pair line is split at its first `=`: the key is the trimmed text before it
   * and the value the trimmed text after it.
   */
  lemma ClassifySplitPair(line: string, before: string, after: string)
    requires TrimSpace(line) == before + ['='] + after && '=' !in before
    requires TrimSpace(line)[0] != '#'
    ensures ClassifyLine(line) == Pair(TrimSpace(before), TrimSpace(after))
  {
    SplitAtFirstUnique(before, '=', after);
  }

  /** Spaces around the `=` are not part of the key or the value. */
  lemma ClassifiesSpacedPair(key: string, value: string)
    requires PlainPair(key, value) && value != []
    ensures ClassifyLine(key + " = " + value) == Pair(key, value)
  {
    var line := key + " = " + value;
    var before, after := key + " ", " " + value;
    assert line == before + ['='] + after;
    assert '=' !in before by {
      assert forall i :: 0 <= i < |key| ==> before[i] == key[i];
    }
    assert NoEdgeSpace(line) by {
      assert line[0] == key[0] && line[|line| - 1] == value[|value| - 1];
    }
    TrimSpaceOfTrimmed(line);
    TrimSpaceOfPadded([], key, " ");
    assert [] + key + " " == before;
    TrimSpaceOfPadded(" ", value, []);
    assert " " + value + [] == after;
    ClassifySplitPair(line, before, after);
  }

  /** A line that starts with `=` is a pair with the empty key. */
  lemma ClassifiesEmptyKey(value: string)
    requires NoEdgeSpace(value)
    ensures ClassifyLine(['='] + value) == Pair([], value)
  {
    var line := ['='] + value;
    assert NoEdgeSpace(line) by {
      if value != [] { assert line[|line| - 1] == value[|value| - 1]; }
    }
    TrimSpaceOfTrimmed(line);
    TrimSpaceOfTrimmed([]);
    TrimSpaceOfTrimmed(value);
    assert line == [] + ['='] + value;
    ClassifySplitPair(line, [], value);
  }

  /** A line is classified by its trimmed text alone. */
  lemma ClassifyByTrimmedText(line: string, trimmed: string)
    requires TrimSpace(line) == TrimSpace(trimmed)
    ensures ClassifyLine(line) == ClassifyLine(trimmed)
  {
  }

  /** Parsing one more classified line is one more `Step`. */
  lemma ParseLinesSnoc(ls: seq<Line>, l: Line)
    ensures ParseLines(ls + [l]) == Step(ParseLines(ls), l)
  {
    assert (ls + [l])[..|ls|] == ls;
  }

  lemma ParseTwoLines(data: string, l1: string, l2: string, p1: Line, p2: Line)
    requires '\n' !in l1 && '\n' !in l2
    requires ClassifyLine(l1) == p1 && ClassifyLine(l2) == p2
    requires data == l1 + ['\n'] + l2
    ensures ParseText(data) == ParseLines([p1, p2])
  {
    assert data == Join([l1, l2], '\n');
    ParseTextOfLines(data, [l1, l2], [p1, p2]);
  }

  // The test files of the parser, one lemma per file. Each literal fact (how a
  // literal is spelled, which pieces it splits into) sits in its own small lemma
  // beside the general lemma it feeds, so that no single proof has to unfold
  // the trimming and splitting functions over string literals and also reason
  // about the literal's characters.

  lemma FirstPairSpelled()
    ensures PlainPair("TEST_KEY", "123") && "TEST_KEY" + ['='] + "123" == "TEST_KEY=123"
  {
  }

  /** `TEST_KEY=123` classifies as the pair it spells. */
  lemma ClassifiesFirstPair()
    ensures ClassifyLine("TEST_KEY=123") == Pair("TEST_KEY", "123")
  {
    FirstPairSpelled();
    ClassifyPlainPair("TEST_KEY", "123");
  }

  lemma SecondPairSpelled()
    ensures PlainPair("TEST_KEY2", "456") && "TEST_KEY2" + ['='] + "456" == "TEST_KEY2=456"
  {
  }

  /** `TEST_KEY2=456` classifies as the pair it spells. */
  lemma ClassifiesSecondPair()
    ensures ClassifyLine("TEST_KEY2=456") == Pair("TEST_KEY2", "456")
  {
    SecondPairSpelled();
    ClassifyPlainPair("TEST_KEY2", "456");
  }

  /** A file holding only `TEST_KEY=123` gives that one entry. */
  lemma ParsesSinglePair(data: string)
    requires data == "TEST_KEY=123"
    ensures ParseText(data) == Success(map["TEST_KEY" := "123"])
  {
    var p1 := Pair("TEST_KEY", "123");
    ClassifiesFirstPair();
    FirstPairPlain();
    ParseTextOfLines(data, [data], [p1]);
    ParseLinesSnoc([], p1);
    assert [] + [p1] == [p1];
  }

  lemma FirstPairPlain()
    ensures '\n' !in "TEST_KEY=123"
  {
  }

  /** The two pairs of the test files, in order, give a map holding both. */
  lemma ParsesTwoPairs()
    ensures ParseLines([Pair("TEST_KEY", "123"), Pair("TEST_KEY2", "456")])
         == Success(map["TEST_KEY" := "123", "TEST_KEY2" := "456"])
  {
    var p1, p2 := Pair("TEST_KEY", "123"), Pair("TEST_KEY2", "456");
    ParseLinesSnoc([], p1);
    ParseLinesSnoc([p1], p2);
    assert [] + [p1] == [p1] && [p1] + [p2] == [p1, p2];
  }

  lemma TwoLinesSplit(data: string)
    requires data == "TEST_KEY=123\nTEST_KEY2=456"
    ensures data == "TEST_KEY=123" + ['\n'] + "TEST_KEY2=456"
    ensures '\n' !in "TEST_KEY=123" && '\n' !in "TEST_KEY2=456"
  {
  }

  lemma TwoLinesClassified(data: string)
    requires data == "TEST_KEY=123\nTEST_KEY2=456"
    ensures ParseText(data) == ParseLines([Pair("TEST_KEY", "123"), Pair("TEST_KEY2", "456")])
  {
    ClassifiesFirstPair();
    ClassifiesSecondPair();
    TwoLinesSplit(data);
    ParseTwoLines(data, "TEST_KEY=123", "TEST_KEY2=456", Pair("TEST_KEY", "123"), Pair("TEST_KEY2", "456"));
  }

  /** The test file `TEST_KEY=123\nTEST_KEY2=456` gives both entries. */
  lemma ParsesTwoLines(data: string)
    requires data == "TEST_KEY=123\nTEST_KEY2=456"
    ensures ParseText(data) == Success(map["TEST_KEY" := "123", "TEST_KEY2" := "456"])
  {
    TwoLinesClassified(data);
    ParsesTwoPairs();
  }

  /** A tab-indented pair classifies as the pair without its indentation. */
  lemma ClassifiesIndented(key: string, value: string)
    requires PlainPair(key, value)
    ensures ClassifyLine("\t" + (key + ['='] + value)) == Pair(key, value)
  {
    var line := key + ['='] + value;
    ClassifyPlainPair(key, value);
    PairLineNoEdgeSpace(key, value);
    IndentationTrimmed(line);
    ClassifyByTrimmedText("\t" + line, line);
  }

  /** A tab before a line is trimmed away. */
  lemma IndentationTrimmed(line: string)
    requires NoEdgeSpace(line)
    ensures TrimSpace("\t" + line) == TrimSpace(line)
  {
    TrimSpaceOfTrimmed(line);
    TrimSpaceOfPadded("\t", line, []);
    assert "\t" + line + [] == "\t" + line;
  }

  lemma ClassifiesIndentedComment()
    ensures ClassifyLine("\t# Comment") == Skip
  {
    TrimSpaceOfPadded("\t", "# Comment", []);
    assert "\t" + "# Comment" + [] == "\t# Comment";
  }

  lemma FirstIndentedPairSpelled()
    ensures "\t" + ("TEST_KEY" + ['='] + "123") == "\tTEST_KEY=123"
  {
  }

  lemma ClassifiesFirstIndentedPair()
    ensures ClassifyLine("\tTEST_KEY=123") == Pair("TEST_KEY", "123")
  {
    FirstPairSpelled();
    FirstIndentedPairSpelled();
    ClassifiesIndented("TEST_KEY", "123");
  }

  lemma SecondIndentedPairSpelled()
    ensures "\t" + ("TEST_KEY2" + ['='] + "456") == "\tTEST_KEY2=456"
  {
  }

  lemma ClassifiesSecondIndentedPair()
    ensures ClassifyLine("\tTEST_KEY2=456") == Pair("TEST_KEY2", "456")
  {
    SecondPairSpelled();
    SecondIndentedPairSpelled();
    ClassifiesIndented("TEST_KEY2", "456");
  }

  /** Joining six pieces puts one separator between each neighbouring pair. */
  lemma JoinSix(p: seq<string>, sep: char)
    requires |p| == 6
    ensures Join(p, sep) == p[0] + [sep] + p[1] + [sep] + p[2] + [sep] + p[3] + [sep] + p[4] + [sep] + p[5]
  {
    assert p[5..] == [p[5]];
    assert p[4..][1..] == p[5..];
    assert p[3..][1..] == p[4..];
    assert p[2..][1..] == p[3..];
    assert p[1..][1..] == p[2..];
    assert Join(p[4..], sep) == p[4] + [sep] + p[5];
    assert Join(p[3..], sep) == p[3] + [sep] + (p[4] + [sep] + p[5]);
    assert Join(p[2..], sep) == p[2] + [sep] + (p[3] + [sep] + (p[4] + [sep] + p[5]));
  }

  lemma BlanksAndCommentsSpelled(data: string)
    requires data == "\n\tTEST_KEY=123\n\n\t# Comment\n\n\tTEST_KEY2=456"
    ensures data == "" + ['\n'] + "\tTEST_KEY=123" + ['\n'] + "" + ['\n'] + "\t# Comment"
                    + ['\n'] + "" + ['\n'] + "\tTEST_KEY2=456"
  {
  }

  lemma BlanksAndCommentsJoined(data: string)
    requires data == "\n\tTEST_KEY=123\n\n\t# Comment\n\n\tTEST_KEY2=456"
    ensures data == Join(["", "\tTEST_KEY=123", "", "\t# Comment", "", "\tTEST_KEY2=456"], '\n')
  {
    JoinSix(["", "\tTEST_KEY=123", "", "\t# Comment", "", "\tTEST_KEY2=456"], '\n');
    BlanksAndCommentsSpelled(data);
  }

  lemma ClassifiesBlankLine()
    ensures ClassifyLine("") == Skip
  {
    assert TrimSpace("") == "";
  }

  lemma BlanksAndCommentsEachClassified(a: string, b: string, c: string, d: string, e: string, f: string)
    requires a == "" && b == "\tTEST_KEY=123" && c == "" && d == "\t# Comment" && e == "" && f == "\tTEST_KEY2=456"
    ensures ClassifyLine(a) == Skip && ClassifyLine(b) == Pair("TEST_KEY", "123") && ClassifyLine(c) == Skip
    ensures ClassifyLine(d) == Skip && ClassifyLine(e) == Skip && ClassifyLine(f) == Pair("TEST_KEY2", "456")
  {
    ClassifiesBlankLine();
    ClassifiesFirstIndentedPair();
    ClassifiesIndentedComment();
    ClassifiesSecondIndentedPair();
  }

  /**
   * Six newline-free lines, the second and last of them pairs and the others
   * skipped, parse as those six classifications.
   */
  lemma ParseSixLines(data: string, a: string, b: string, c: string, d: string, e: string, f: string,
                      p1: Line, p2: Line)
    requires '\n' !in a && '\n' !in b && '\n' !in c && '\n' !in d && '\n' !in e && '\n' !in f
    requires ClassifyLine(a) == Skip && ClassifyLine(b) == p1 && ClassifyLine(c) == Skip
    requires ClassifyLine(d) == Skip && ClassifyLine(e) == Skip && ClassifyLine(f) == p2
    requires data == Join([a, b, c, d, e, f], '\n')
    ensures ParseText(data) == ParseLines([Skip, p1, Skip, Skip, Skip, p2])
  {
    var lines := [a, b, c, d, e, f];
    var ls := [Skip, p1, Skip, Skip, Skip, p2];
    forall i | 0 <= i < 6 ensures '\n' !in lines[i] && ClassifyLine(lines[i]) == ls[i] {
      if i == 0 { assert lines[i] == a; }
      else if i == 1 { assert lines[i] == b; }
      else if i == 2 { assert lines[i] == c; }
      else if i == 3 { assert lines[i] == d; }
      else if i == 4 { assert lines[i] == e; }
      else { assert lines[i] == f; }
    }
    ParseTextOfLines(data, lines, ls);
  }

  lemma BlanksAndCommentsLinesPlain()
    ensures '\n' !in "\tTEST_KEY=123" && '\n' !in "\t# Comment" && '\n' !in "\tTEST_KEY2=456"
  {
  }

  lemma BlanksAndCommentsClassified(data: string)
    requires data == "\n\tTEST_KEY=123\n\n\t# Comment\n\n\tTEST_KEY2=456"
    ensures ParseText(data)
         == ParseLines([Skip, Pair("TEST_KEY", "123"), Skip, Skip, Skip, Pair("TEST_KEY2", "456")])
  {
    BlanksAndCommentsJoined(data);
    BlanksAndCommentsEachClassified("", "\tTEST_KEY=123", "", "\t# Comment", "", "\tTEST_KEY2=456");
    BlanksAndCommentsLinesPlain();
    ParseSixLines(data, "", "\tTEST_KEY=123", "", "\t# Comment", "", "\tTEST_KEY2=456",
                  Pair("TEST_KEY", "123"), Pair("TEST_KEY2", "456"));
  }

  lemma SkipsBlanksAndComments()
    ensures ParseLines([Skip, Pair("TEST_KEY", "123"), Skip, Skip, Skip, Pair("TEST_KEY2", "456")])
         == ParseLines([Pair("TEST_KEY", "123"), Pair("TEST_KEY2", "456")])
  {
    var p1, p2 := Pair("TEST_KEY", "123"), Pair("TEST_KEY2", "456");
    SkippedLineContributesNothing([], [p1, Skip, Skip, Skip, p2]);
    SkippedLineContributesNothing([p1], [Skip, Skip, p2]);
    SkippedLineContributesNothing([p1], [Skip, p2]);
    SkippedLineContributesNothing([p1], [p2]);
    assert [Skip, p1, Skip, Skip, Skip, p2] == [] + [Skip] + [p1, Skip, Skip, Skip, p2];
    assert [p1, Skip, Skip, Skip, p2] == [p1] + [Skip] + [Skip, Skip, p2];
    assert [p1] + [Skip, Skip, p2] == [p1] + [Skip] + [Skip, p2];
    assert [p1] + [Skip, p2] == [p1] + [Skip] + [p2];
    assert [] + [p1, Skip, Skip, Skip, p2] == [p1, Skip, Skip, Skip, p2];
    assert [p1] + [p2] == [p1, p2];
  }

  /**
   * The test file with blank lines, tab indentation and a comment gives the
   * same two entries.
   */
  lemma ParsesLinesWithBlanksAndComments(data: string)
    requires data == "\n\tTEST_KEY=123\n\n\t# Comment\n\n\tTEST_KEY2=456"
    ensures ParseText(data) == Success(map["TEST_KEY" := "123", "TEST_KEY2" := "456"])
  {
    BlanksAndCommentsClassified(data);
    SkipsBlanksAndComments();
    ParsesTwoPairs();
  }

  lemma EqualsInValueSpelled()
    ensures PlainPair("URL", "a=b") && "URL" + ['='] + "a=b" == "URL=a=b"
  {
  }

  /** A value keeps every `=` after the first one. */
  lemma ValueMayContainEquals()
    ensures ClassifyLine("URL=a=b") == Pair("URL", "a=b")
  {
    EqualsInValueSpelled();
    ClassifyPlainPair("URL", "a=b");
  }

  /** A line with no white space at its edges, not a comment and with no `=` is malformed. */
  lemma ClassifyPlainMalformed(line: string)
    requires line != [] && line[0] != '#' && NoEdgeSpace(line) && '=' !in line
    ensures ClassifyLine(line) == Malformed(line)
  {
    TrimSpaceOfPadded([], line, []);
    assert [] + line + [] == line;
  }

  /**
   * A file of one line that is neither blank nor a comment and has no `=` fails,
   * with the line's trimmed text as the error.
   */
  lemma {:induction false} RejectsSingleLine(line: string)
    requires '\n' !in line
    requires TrimSpace(line) != [] && TrimSpace(line)[0] != '#' && '=' !in TrimSpace(line)
    ensures ParseText(line) == Failure(MalformedLine(TrimSpace(line)))
  {
    var t := TrimSpace(line);
    assert ClassifyLine(line) == Malformed(t);
    ParseTextOfLines(line, [line], [Malformed(t)]);
    assert [Malformed(t)][..0] == [];
  }

  /** The test file `TEST_KEY,123` is rejected as a whole. */
  lemma RejectsLineWithoutEquals(data: string)
    requires data == "TEST_KEY,123"
    ensures ParseText(data) == Failure(MalformedLine("TEST_KEY,123"))
  {
    ClassifyPlainMalformed(data);
    RejectsSingleLine(data);
  }
}
