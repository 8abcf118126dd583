/** Classification of one trimmed denylist line (src/main.rs:151-210). */
module Entry {
  import opened Text

  /** Why a line was rejected; `Message` gives the text the tool reports. */
  datatype Reason =
    | TooManyAt
    | EmptyName
    | EmptyVersion
    | VersionHasSlash
    | VersionNotAlphanumeric

  function Message(r: Reason): string {
    match r
    case TooManyAt => "Too many @ characters for unscoped package"
    case EmptyName => "Empty name part"
    case EmptyVersion => "Empty version part"
    case VersionHasSlash => "Version contains '/'"
    case VersionNotAlphanumeric => "Version does not start with alphanumeric"
  }

  /** One denylist line: any version of a package, one exact version of it,
      or a syntax error. */
  datatype CompEntry =
    | Name(name: string)
    | Exact(name: string, version: string)
    | Invalid(reason: Reason)

  /** A version the parser accepts after the last `@`: non-empty, free of
      `/` and `@`, starting with an ASCII letter or digit. */
  predicate ValidVersion(v: string) {
    v != [] && '/' !in v && '@' !in v && IsAsciiAlphanumeric(v[0])
  }

  /** A name the parser accepts before the last `@`: non-empty, and either a
      scoped name (leading `@`) or free of `@` altogether. */
  predicate ValidName(n: string) {
    n != [] && (n[0] == '@' || '@' !in n)
  }

  /** The `@` count of a line split around one of its `@` characters. */
  lemma SplitCount(line: string, i: nat)
    requires i < |line| && line[i] == '@'
    ensures Count(line, '@') == Count(line[..i], '@') + 1 + Count(line[i + 1..], '@')
  {
    assert line == line[..i] + [line[i]] + line[i + 1..];
    CountAppend(line[..i] + [line[i]], line[i + 1..], '@');
    CountAppend(line[..i], [line[i]], '@');
  }

  /** `parse_compromised_entry`: a line whose only `@` (if any) is a leading
      scope marker is a bare name; otherwise the line is split at its last
      `@` and both halves are checked. */
  function ParseEntry(line: string): (r: CompEntry)
    // A bare name exactly when no `@` follows the first character.
    ensures r.Name? <==> line == [] || '@' !in line[1..]
    ensures r.Name? ==> r.name == line
    // An unscoped line with two or more `@` is rejected before any split.
    ensures r == Invalid(TooManyAt) <==> line != [] && line[0] != '@' && Count(line, '@') >= 2
    // An accepted exact entry reassembles to the line, split at its last `@`.
    ensures r.Exact? ==> line == r.name + "@" + r.version
    ensures r.Exact? ==> ValidName(r.name) && ValidVersion(r.version)
    // The empty-name check can never fire.
    ensures r != Invalid(EmptyName)
  {
    if '@' !in line then
      Name(line)
    else
      var atCount := Count(line, '@');
      if line[0] == '@' && atCount < 2 then
        Name(line)
      else if line[0] != '@' && atCount > 1 then
        Invalid(TooManyAt)
      else
        var lastAt := LastIndexOf(line, '@');
        var namePart := line[..lastAt];
        var verPart := line[lastAt + 1..];
        SplitCount(line, lastAt);
        if namePart == [] then
          Invalid(EmptyName)
        else if verPart == [] then
          Invalid(EmptyVersion)
        else if '/' in verPart then
          Invalid(VersionHasSlash)
        else if !IsAsciiAlphanumeric(verPart[0]) then
          Invalid(VersionNotAlphanumeric)
        else
          Exact(namePart, verPart)
  }
}

module EntryFacts {
  import opened Text
  import opened Entry

  /** In `n + "@" + v` with no `@` in `v`, the separator is the last `@`. */
  lemma LastAtOfJoin(n: string, v: string)
    requires '@' !in v
    ensures '@' in n + "@" + v
    ensures LastIndexOf(n + "@" + v, '@') == |n|
  {
    var line := n + "@" + v;
    assert line[|n|] == '@';
  }

  /** Once a line reaches the split, its verdict depends on the version
      half alone, checked in the source's order: empty, then `/`, then the
      first character. */
  lemma SplitVerdict(n: string, v: string)
    requires ValidName(n) && '@' !in v
    ensures ParseEntry(n + "@" + v) ==
      if v == [] then Invalid(EmptyVersion)
      else if '/' in v then Invalid(VersionHasSlash)
      else if !IsAsciiAlphanumeric(v[0]) then Invalid(VersionNotAlphanumeric)
      else Exact(n, v)
  {
    var line := n + "@" + v;
    LastAtOfJoin(n, v);
    SplitCount(line, |n|);
    assert line[..|n|] == n;
    assert line[|n| + 1..] == v;
    assert line[0] == n[0];
    if n[0] == '@' {
      assert '@' in n;
    }
  }

  /** Every line that is neither a bare name nor rejected for too many `@`
      reaches the split: before its last `@` stands an acceptable name,
      after it a version free of `@`, and the verdict is decided by that
      version half alone, in the order of `SplitVerdict`. */
  lemma SplitForm(line: string)
    requires !ParseEntry(line).Name? && ParseEntry(line) != Invalid(TooManyAt)
    ensures '@' in line
    ensures var i := LastIndexOf(line, '@');
      && line == line[..i] + "@" + line[i + 1..]
      && ValidName(line[..i]) && '@' !in line[i + 1..]
    ensures var v := line[LastIndexOf(line, '@') + 1..];
      ParseEntry(line) ==
        if v == [] then Invalid(EmptyVersion)
        else if '/' in v then Invalid(VersionHasSlash)
        else if !IsAsciiAlphanumeric(v[0]) then Invalid(VersionNotAlphanumeric)
        else Exact(line[..LastIndexOf(line, '@')], v)
  {
    SplitAtLast(line);
    var i := LastIndexOf(line, '@');
    SplitVerdict(line[..i], line[i + 1..]);
  }

  /** An `@` after the first character puts the last `@` there too. */
  lemma LastAtAfterFirst(line: string)
    requires line != [] && '@' in line[1..]
    ensures '@' in line && LastIndexOf(line, '@') >= 1
  {
    var k :| 0 <= k < |line[1..]| && line[1..][k] == '@';
    assert line[k + 1] == '@';
    var i := LastIndexOf(line, '@');
    assert forall j | i + 1 <= j < |line| :: line[j] == line[i + 1..][j - i - 1];
  }

  /** The counting behind `SplitForm`, without the parser. */
  lemma SplitAtLast(line: string)
    requires line != [] && '@' in line[1..]
    requires line[0] == '@' || Count(line, '@') < 2
    ensures '@' in line
    ensures var i := LastIndexOf(line, '@');
      && line == line[..i] + "@" + line[i + 1..]
      && ValidName(line[..i]) && '@' !in line[i + 1..]
  {
    LastAtAfterFirst(line);
    var i := LastIndexOf(line, '@');
    SplitCount(line, i);
    JoinAt(line, i);
    assert line[..i][0] == line[0];
  }

  /** A line is its two halves around one of its `@` characters. */
  lemma JoinAt(line: string, i: nat)
    requires i < |line| && line[i] == '@'
    ensures line == line[..i] + "@" + line[i + 1..]
  {
    assert line == line[..i] + [line[i]] + line[i + 1..];
  }

  /** A line parses to `Exact(n, v)` exactly when it is `n`, `@`, `v` with
      an acceptable name and version. */
  lemma ExactIff(line: string, n: string, v: string)
    ensures ParseEntry(line) == Exact(n, v) <==>
              line == n + "@" + v && ValidName(n) && ValidVersion(v)
  {
    if line == n + "@" + v && ValidName(n) && ValidVersion(v) {
      SplitVerdict(n, v);
    }
  }

  /** Two accepted lines, unscoped and scoped; a line that reaches the split is
      written as its two halves joined by `@`. */
  lemma AcceptedExamples()
    ensures ParseEntry("foo" + "@" + "1.2.3") == Exact("foo", "1.2.3")
    ensures ParseEntry("@scope/pkg" + "@" + "2.0.0") == Exact("@scope/pkg", "2.0.0")
  {
    assert ValidVersion("1.2.3") && ValidVersion("2.0.0");
    SplitVerdict("foo", "1.2.3");
    SplitVerdict("@scope/pkg", "2.0.0");
  }

  /** A scoped name with no version is a bare name, not an empty version. */
  lemma ScopeOnlyExamples()
    ensures ParseEntry("@" + "scope/pkg") == Name("@" + "scope/pkg")
    ensures ParseEntry("@" + "foo") == Name("@" + "foo")
  {
    assert ("@" + "scope/pkg")[1..] == "scope/pkg";
    assert ("@" + "foo")[1..] == "foo";
  }

  /** One line for each version check. The `/` check runs before the
      first-character check, so `foo@/bar` is rejected for its `/`. */
  lemma RejectedExamples()
    ensures ParseEntry("foo" + "@" + "") == Invalid(EmptyVersion)
    ensures ParseEntry("foo" + "@" + "bar/baz") == Invalid(VersionHasSlash)
    ensures ParseEntry("foo" + "@" + "/bar") == Invalid(VersionHasSlash)
    ensures ParseEntry("foo" + "@" + "-1") == Invalid(VersionNotAlphanumeric)
  {
    SplitVerdict("foo", "");
    assert "bar/baz"[3] == '/';
    SplitVerdict("foo", "bar/baz");
    assert "/bar"[0] == '/';
    SplitVerdict("foo", "/bar");
    SplitVerdict("foo", "-1");
  }

  /** Two `@` in an unscoped line. */
  lemma TooManyAtExample()
    ensures ParseEntry("a@b@c") == Invalid(TooManyAt)
  {
    assert Count("a@b@c", '@') == 2;
  }
}
