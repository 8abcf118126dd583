/** The line loop of `parse_compromised_file` (src/main.rs:112-149): the
    denylist text, already split into lines, becomes a `Lists` value or the
    first line-numbered error. */
module Denylist {
  import opened Wrappers
  import opened Text
  import opened Entry

  /** The parsed denylist: exact `(name, version)` pairs and bare names. */
  datatype Lists = Lists(exact: set<(string, string)>, names: set<string>)

  /** A rejected line: its 1-based number, its trimmed text and the reason. */
  datatype ParseError = ParseError(lineNo: nat, line: string, reason: Reason)

  /** Every name of an exact pair is also a bare name. */
  predicate ExactNamesListed(l: Lists) {
    forall p | p in l.exact :: p.0 in l.names
  }

  /** What the loop body makes of one raw line: a blank or `#` comment line
      is skipped, any other line is trimmed and classified. */
  datatype Line = Blank | Listed(text: string, entry: CompEntry)

  function Classify(raw: string): (l: Line)
    // Skipped exactly when the line is all whitespace or its first
    // non-whitespace character is `#`.
    ensures l.Blank? <==> forall i | FirstVisible(raw, i) :: raw[i] == '#'
    // A kept line is classified on its trimmed text.
    ensures l.Listed? ==> l.text == Trim(raw) && l.entry == ParseEntry(l.text)
  {
    TrimFront(raw);
    var line := Trim(raw);
    if line == [] || line[0] == '#' then Blank else Listed(line, ParseEntry(line))
  }

  /** The classified lines of a whole denylist, in order. */
  function ClassifyAll(lines: seq<string>): (ls: seq<Line>)
    ensures |ls| == |lines|
    ensures forall j | 0 <= j < |lines| :: ls[j] == Classify(lines[j])
  {
    seq(|lines|, j requires 0 <= j < |lines| => Classify(lines[j]))
  }

  /** A line the parser gets past. */
  predicate LineOk(l: Line) {
    !(l.Listed? && l.entry.Invalid?)
  }

  /** The bare names one line contributes. */
  function LineNames(l: Line): set<string> {
    if l.Listed? && (l.entry.Name? || l.entry.Exact?) then {l.entry.name} else {}
  }

  /** The exact pairs one line contributes. */
  function LinePairs(l: Line): set<(string, string)> {
    if l.Listed? && l.entry.Exact? then {(l.entry.name, l.entry.version)} else {}
  }

  /** `e` reports the first rejected line at or after index `from`. */
  predicate FirstError(ls: seq<Line>, from: nat, e: ParseError) {
    && from < e.lineNo <= |ls|
    && (forall j | from <= j < e.lineNo - 1 :: LineOk(ls[j]))
    && ls[e.lineNo - 1].Listed?
    && ls[e.lineNo - 1].entry == Invalid(e.reason)
    && e.line == ls[e.lineNo - 1].text
  }

  /** The loop body's effect of one accepted entry on the lists built so far. */
  function Add(acc: Lists, e: CompEntry): Lists {
    match e
    case Name(n) => acc.(names := acc.names + {n})
    case Exact(n, v) => Lists(acc.exact + {(n, v)}, acc.names + {n})
    case Invalid(_) => acc
  }

  /** The loop from line index `i` on, with `acc` built from the lines
      before it. */
  function ParseFrom(ls: seq<Line>, i: nat, acc: Lists): Result<Lists, ParseError>
    requires i <= |ls|
    decreases |ls| - i
  {
    if i == |ls| then
      Success(acc)
    else if ls[i].Blank? then
      ParseFrom(ls, i + 1, acc)
    else if ls[i].entry.Invalid? then
      Failure(ParseError(i + 1, ls[i].text, ls[i].entry.reason))
    else
      ParseFrom(ls, i + 1, Add(acc, ls[i].entry))
  }

  /** The lists after line `i`, when the loop gets past it. */
  function Step(ls: seq<Line>, i: nat, acc: Lists): Lists
    requires i < |ls|
  {
    if ls[i].Blank? then acc else Add(acc, ls[i].entry)
  }

  /** The loop from index `i` succeeds exactly when no line from there on
      is rejected. */
  lemma {:induction false} ParseFromSucceeds(ls: seq<Line>, i: nat, acc: Lists)
    requires i <= |ls|
    ensures ParseFrom(ls, i, acc).Success? <==> forall j | i <= j < |ls| :: LineOk(ls[j])
    decreases |ls| - i
  {
    if i < |ls| && LineOk(ls[i]) {
      ParseFromSucceeds(ls, i + 1, Step(ls, i, acc));
    }
  }

  /** On success the loop from index `i` has added to `acc` exactly the
      names of the lines from there on. */
  lemma {:induction false} ParseFromCollectsNames(ls: seq<Line>, i: nat, acc: Lists)
    requires i <= |ls|
    ensures ParseFrom(ls, i, acc).Success? ==> forall n ::
              n in ParseFrom(ls, i, acc).value.names <==>
              (n in acc.names || exists j | i <= j < |ls| :: n in LineNames(ls[j]))
    decreases |ls| - i
  {
    if i < |ls| && LineOk(ls[i]) {
      var acc' := Step(ls, i, acc);
      ParseFromCollectsNames(ls, i + 1, acc');
      assert acc'.names == acc.names + LineNames(ls[i]);
    }
  }

  /** On success the loop from index `i` has added to `acc` exactly the
      pairs of the lines from there on. */
  lemma {:induction false} ParseFromCollectsPairs(ls: seq<Line>, i: nat, acc: Lists)
    requires i <= |ls|
    ensures ParseFrom(ls, i, acc).Success? ==> forall p ::
              p in ParseFrom(ls, i, acc).value.exact <==>
              (p in acc.exact || exists j | i <= j < |ls| :: p in LinePairs(ls[j]))
    decreases |ls| - i
  {
    if i < |ls| && LineOk(ls[i]) {
      var acc' := Step(ls, i, acc);
      ParseFromCollectsPairs(ls, i + 1, acc');
      assert acc'.exact == acc.exact + LinePairs(ls[i]);
    }
  }

  /** On failure the loop from index `i` reports the first rejected line. */
  lemma {:induction false} ParseFromStops(ls: seq<Line>, i: nat, acc: Lists)
    requires i <= |ls|
    ensures ParseFrom(ls, i, acc).Failure? ==> FirstError(ls, i, ParseFrom(ls, i, acc).error)
    decreases |ls| - i
  {
    if i < |ls| && LineOk(ls[i]) {
      ParseFromStops(ls, i + 1, Step(ls, i, acc));
    }
  }

  /** `parse_compromised_file` after the file has been read: blank and `#`
      lines are skipped, every other line is classified, and the first
      rejected line aborts the whole parse. */
  function ParseLines(lines: seq<string>): (r: Result<Lists, ParseError>)
    ensures r.Success? <==> forall j | 0 <= j < |lines| :: LineOk(Classify(lines[j]))
    ensures r.Success? ==> forall n ::
              n in r.value.names <==> exists j | 0 <= j < |lines| :: n in LineNames(Classify(lines[j]))
    ensures r.Success? ==> forall p ::
              p in r.value.exact <==> exists j | 0 <= j < |lines| :: p in LinePairs(Classify(lines[j]))
    ensures r.Success? ==> ExactNamesListed(r.value)
    ensures r.Failure? ==> FirstError(ClassifyAll(lines), 0, r.error)
  {
    var ls := ClassifyAll(lines);
    ParseFromSucceeds(ls, 0, Lists({}, {}));
    ParseFromCollectsNames(ls, 0, Lists({}, {}));
    ParseFromCollectsPairs(ls, 0, Lists({}, {}));
    ParseFromStops(ls, 0, Lists({}, {}));
    ParseFrom(ls, 0, Lists({}, {}))
  }
}

/** How the line loop composes: skipped lines, concatenation, fail-fast. */
module DenylistFacts {
  import opened Wrappers
  import opened Text
  import opened Entry
  import opened Denylist

  /** A result as seen from `k` lines further down: an error's line number
      moves by `k`, a success is unchanged. */
  function Offset(r: Result<Lists, ParseError>, k: nat): Result<Lists, ParseError> {
    if r.Success? then r else Failure(ParseError(r.error.lineNo + k, r.error.line, r.error.reason))
  }

  /** Parsing the lines `b` after lines whose outcome was `first`, `k` lines
      long: an error stands, a success hands its lists on. */
  function Continue(first: Result<Lists, ParseError>, b: seq<Line>, k: nat): Result<Lists, ParseError> {
    if first.Failure? then first else Offset(ParseFrom(b, 0, first.value), k)
  }

  /** Whitespace around a line is ignored: the line is classified on the
      text between the padding. */
  lemma PaddedLineIsKept(pre: string, x: string, post: string)
    requires AllWhitespace(pre) && AllWhitespace(post)
    requires x != [] && x[0] != '#' && !IsWhitespace(x[0]) && !IsWhitespace(x[|x| - 1])
    ensures Classify(pre + x + post) == Listed(x, ParseEntry(x))
  {
    TrimPadded(pre, x, post);
  }

  /** A comment is skipped however it is indented and whatever follows
      its `#`. */
  lemma IndentedCommentIsSkipped(pre: string, rest: string)
    requires AllWhitespace(pre)
    ensures Classify(pre + "#" + rest).Blank?
  {
    var s := pre + "#" + rest;
    assert s[|pre|] == '#';
    assert forall k | 0 <= k < |pre| :: s[k] == pre[k];
  }

  /** Lines preceded by `a` parse as they do alone, line numbers moved by `|a|`. */
  lemma {:induction false} ParseShift(a: seq<Line>, b: seq<Line>, j: nat, acc: Lists)
    requires j <= |b|
    ensures ParseFrom(a + b, |a| + j, acc) == Offset(ParseFrom(b, j, acc), |a|)
    decreases |b| - j
  {
    if j < |b| {
      assert (a + b)[|a| + j] == b[j];
      if LineOk(b[j]) {
        ParseShift(a, b, j + 1, Step(b, j, acc));
      }
    }
  }

  /** Parsing `a + b` from inside `a`: stop at an error in `a`, otherwise
      carry the lists built from `a` into `b`. */
  lemma {:induction false} ParseFromAppend(a: seq<Line>, b: seq<Line>, i: nat, acc: Lists)
    requires i <= |a|
    ensures ParseFrom(a + b, i, acc) == Continue(ParseFrom(a, i, acc), b, |a|)
    decreases |a| - i
  {
    if i == |a| {
      ParseShift(a, b, 0, acc);
    } else {
      assert (a + b)[i] == a[i];
      if LineOk(a[i]) {
        ParseFromAppend(a, b, i + 1, Step(a, i, acc));
      }
    }
  }

  lemma ClassifyAppend(a: seq<string>, b: seq<string>)
    ensures ClassifyAll(a + b) == ClassifyAll(a) + ClassifyAll(b)
  {
  }

  lemma ClassifyInsert(a: seq<string>, raw: string, b: seq<string>)
    ensures ClassifyAll(a + [raw] + b) == ClassifyAll(a) + [Classify(raw)] + ClassifyAll(b)
  {
    ClassifyAppend(a + [raw], b);
    ClassifyAppend(a, [raw]);
  }

  /** Parsing a concatenation: the first part's error stands, otherwise
      its lists are carried into the second part, whose line numbers count
      on from the first part's length. */
  lemma ParseConcat(a: seq<string>, b: seq<string>)
    ensures ParseLines(a + b) == Continue(ParseLines(a), ClassifyAll(b), |a|)
  {
    ClassifyAppend(a, b);
    ParseFromAppend(ClassifyAll(a), ClassifyAll(b), 0, Lists({}, {}));
  }

  /** Fail-fast: once the first lines contain an error, nothing after them
      changes the result. */
  lemma ErrorIgnoresLaterLines(a: seq<string>, b: seq<string>)
    ensures ParseLines(a).Failure? ==> ParseLines(a + b) == ParseLines(a)
  {
    ParseConcat(a, b);
  }

  /** The blank-line fact on classified lines, from the empty lists. */
  lemma BlankLineAddsNothing(a: seq<Line>, b: seq<Line>)
    ensures var r, r' := ParseFrom(a + b, 0, Lists({}, {})), ParseFrom(a + [Blank] + b, 0, Lists({}, {}));
      && r'.Success? == r.Success?
      && (r.Success? ==> r' == r)
      && (r.Failure? ==>
            && r'.error.line == r.error.line && r'.error.reason == r.error.reason
            && r'.error.lineNo == (if r.error.lineNo <= |a| then r.error.lineNo else r.error.lineNo + 1))
  {
    var empty := Lists({}, {});
    assert a + [Blank] + b == a + ([Blank] + b);
    ParseFromAppend(a, [Blank] + b, 0, empty);
    ParseFromAppend(a, b, 0, empty);
    if ParseFrom(a, 0, empty).Success? {
      var l := ParseFrom(a, 0, empty).value;
      ParseShift([Blank], b, 0, l);
      assert ParseFrom([Blank] + b, 0, l) == ParseFrom([Blank] + b, 1, l);
      ParseFromStops(b, 0, l);
    } else {
      ParseFromStops(a, 0, empty);
    }
  }

  /** A blank or `#` line, wherever it sits, adds nothing: the lists are
      the same with or without it, and an error keeps its text and reason,
      one line further down when it comes after the skipped line. */
  lemma SkippedLineAddsNothing(a: seq<string>, raw: string, b: seq<string>)
    requires Classify(raw).Blank?
    ensures ParseLines(a + [raw] + b).Success? == ParseLines(a + b).Success?
    ensures ParseLines(a + b).Success? ==> ParseLines(a + [raw] + b) == ParseLines(a + b)
    ensures ParseLines(a + b).Failure? ==>
      var e, e' := ParseLines(a + b).error, ParseLines(a + [raw] + b).error;
      && e'.line == e.line && e'.reason == e.reason
      && e'.lineNo == (if e.lineNo <= |a| then e.lineNo else e.lineNo + 1)
  {
    ClassifyAppend(a, b);
    ClassifyInsert(a, raw, b);
    BlankLineAddsNothing(ClassifyAll(a), ClassifyAll(b));
    assert ParseLines(a + b) == ParseFrom(ClassifyAll(a) + ClassifyAll(b), 0, Lists({}, {}));
    assert ParseLines(a + [raw] + b) == ParseFrom(ClassifyAll(a) + [Blank] + ClassifyAll(b), 0, Lists({}, {}));
  }

  /** A denylist of blank and comment lines only is empty. */
  lemma OnlySkippedLinesIsEmpty(lines: seq<string>)
    requires forall j | 0 <= j < |lines| :: Classify(lines[j]).Blank?
    ensures ParseLines(lines) == Success(Lists({}, {}))
  {
    var r := ParseLines(lines);
    assert r.value.names == {};
    assert r.value.exact == {};
  }
}
