# npm-compromise-scan core, modelled in Dafny

The scanner checks a resolved npm dependency tree against a denylist of compromised packages. This project models its pure logic from `src/main.rs`:

- **Denylist parser.** `parse_compromised_entry` sorts one trimmed line into one of three results. A bare name is `name`. An exact entry is `name@version` or `@scope/name@version`, split at the last `@`. Anything else is a syntax error with a reason.
- **Line loop of `parse_compromised_file`.** It skips blank and `#` lines and builds the `exact` pair set and the `names` set. It stops at the first bad line and reports that line's 1-based number, its trimmed text and the reason.
- **Tree flattening.** `collect_deps` and `traverse` walk the `dependencies` tree depth first. Each node with a string `version` yields one `(name, version)` pair. A `seen` set drops repeated pairs, and the result is sorted by the derived `Ord` of `Dep`: name first, then version.
- **Classification.** `find_matches` reports each dependency once. It is an `exact` match if its pair is denylisted, otherwise a `name` match if its name is. It also returns whether anything matched.

Files and modules:

- `wrappers.dfy` (`Wrappers`): `Option` and `Result`.
- `text.dfy` (`Text`): Rust's `char::is_whitespace`, `str::trim`, `matches(c).count()`, `rfind(c)` and `is_ascii_alphanumeric`, on strings of Unicode scalar values.
- `entry.dfy` (`Entry`, `EntryFacts`): `CompEntry`, the rejection `Reason`s with their exact message strings, `ParseEntry`, and lemmas about it.
- `denylist.dfy` (`Denylist`, `DenylistFacts`): `Lists`, `ParseError`, the loop body's view of one line (`Line`: skipped, or trimmed text with its entry), the line loop as `ParseFrom`/`ParseLines`, and how it composes.
- `deps.dfy` (`Deps`, `DepSort`): `Dep`, its lexicographic order (proved a strict total order), and the sort.
- `tree.dfy` (`Tree`, `Collect`, `CollectFacts`): the tree `Node`, `Traverse` with its accumulator and `seen` set, and `CollectDeps`.
- `matcher.dfy` (`Matcher`, `MatcherFacts`): `MatchRecord`, `FindMatches` (the loop of the source) and what its output means.

The JSON value is replaced by `Node(version: Option<string>, children: seq<(string, Node)>)`:

- `version` is `Some` exactly when the field is present and a string.
- `children` lists the entries of the `dependencies` object. It is empty when that field is absent or is not an object.
- Other fields are ignored, as `traverse` ignores them.
- The root is a `Node` whose own `version` is never recorded, as in `collect_deps`.

## Model

| member | source | states |
|---|---|---|
| Entry.ParseEntry | src/main.rs:165-210 | A line is a bare name exactly when no `@` follows its first character, and the name is then the whole line. An unscoped line with two or more `@` is rejected with "Too many @". An exact result reassembles to the line as `name@version`, with an acceptable name and a version that is non-empty, contains no `/` or `@`, and starts with an ASCII letter or digit. The "Empty name part" rejection is never produced. |
| EntryFacts.SplitVerdict | src/main.rs:184-204 | For a line `n@v` that reaches the split (scoped, or unscoped with one `@`), the verdict depends only on `v`. The checks run in order: empty version, then `/`, then the first character, and each gives its own reason. If all pass, the result is `Exact(n, v)`. |
| EntryFacts.SplitForm | src/main.rs:165-210 | Every line that is neither a bare name nor rejected for too many `@` splits at its last `@` into an acceptable name (non-empty, scoped or free of `@`) and a version with no `@`. Its verdict is decided by that version alone: empty version, then `/`, then the first character, else `Exact` of the two halves. |
| EntryFacts.ExactIff | src/main.rs:165-210 | A line parses to `Exact(n, v)` if and only if it is `n + "@" + v`, where `n` is non-empty and either scoped or free of `@`, and `v` is an acceptable version. This is the split/reassembly round trip in both directions. |
| EntryFacts.AcceptedExamples | src/main.rs:184-209 | `foo@1.2.3` gives `Exact(foo, 1.2.3)` and `@scope/pkg@2.0.0` gives `Exact(@scope/pkg, 2.0.0)`. |
| EntryFacts.ScopeOnlyExamples | src/main.rs:171-175 | `@scope/pkg` and `@foo`, which have one leading `@`, are bare names. |
| EntryFacts.RejectedExamples | src/main.rs:191-204 | `foo@` is rejected for an empty version. `foo@bar/baz` and `foo@/bar` are rejected for containing `/`. `foo@-1` is rejected for its first character. |
| EntryFacts.TooManyAtExample | src/main.rs:176-181 | `a@b@c` is rejected as an unscoped line with too many `@`. |
| Text.TrimMeaning | src/main.rs:124 | `Trim` cuts only whitespace from both ends, and what remains neither starts nor ends with whitespace. |
| Text.TrimFront | src/main.rs:124-125 | The trimmed line is empty exactly when every character is whitespace. Otherwise it starts with the line's first non-whitespace character. |
| Text.TrimPadded | src/main.rs:124 | `trim` removes exactly the whitespace padding around text that neither starts nor ends with whitespace. |
| Text.LastIndexOf | src/main.rs:184 | The split position holds `@`, and no `@` follows it. |
| Text.Count | src/main.rs:169 | The `@` count is zero exactly when the line has no `@`. |
| Denylist.Classify | src/main.rs:124-129 | A line is skipped exactly when it is all whitespace or its first non-whitespace character is `#`. Any other line keeps its trimmed text, and its entry is what the entry parser makes of that text. |
| DenylistFacts.PaddedLineIsKept | src/main.rs:124-129 | Whitespace padding around a line that does not start with `#` is ignored: the line is kept as the text inside the padding and classified on it. |
| DenylistFacts.IndentedCommentIsSkipped | src/main.rs:124-127 | A line whose first non-whitespace character is `#` is skipped, however it is indented and whatever follows the `#`. |
| Denylist.ParseFromSucceeds | src/main.rs:123-148 | The loop from any line on succeeds exactly when none of the remaining lines is rejected. |
| Denylist.ParseFromCollectsNames | src/main.rs:129-136 | On success, the loop adds to the names built so far exactly the names of the remaining lines, counting the name of each exact entry. |
| Denylist.ParseFromCollectsPairs | src/main.rs:133-136 | On success, the loop adds to the pairs built so far exactly the `(name, version)` pairs of the remaining exact lines. |
| Denylist.ParseFromStops | src/main.rs:137-144 | On failure, the loop reports the first rejected line at or after the start. The report holds the 1-based line number, the trimmed text and the reason, and every earlier line was accepted or skipped. |
| Denylist.ParseLines | src/main.rs:120-148 | Parsing succeeds if and only if no line is rejected. On success, `names` holds exactly the names of all entries and `exact` holds exactly their pairs, and every exact name is in `names`. On failure, the error describes the first rejected line, and no lists are returned. |
| DenylistFacts.ParseConcat | src/main.rs:123-146 | Parsing `a + b` returns `a`'s error if `a` has one. Otherwise it continues into `b` from the lists built from `a`, numbering `b`'s lines after `a`'s. |
| DenylistFacts.ErrorIgnoresLaterLines | src/main.rs:137-144 | Fail-fast: once the leading lines hold an error, appending lines never changes the result. |
| DenylistFacts.SkippedLineAddsNothing | src/main.rs:124-127 | Inserting a blank or `#` line anywhere leaves success and the lists unchanged. An error keeps its text and reason, and its line number moves down by one exactly when it comes after the inserted line. |
| DenylistFacts.OnlySkippedLinesIsEmpty | src/main.rs:120-148 | A denylist of blank and comment lines only parses to empty lists. |
| Deps.StrLessTransitive | src/main.rs:38 | String order, as used by the derived `Ord`, is transitive. |
| Deps.StrLessTotal | src/main.rs:38 | String order is total: two different strings are always ordered one way. |
| Deps.DepLessTransitive | src/main.rs:38-42 | The derived order on `Dep` (name, then version) is transitive. |
| Deps.DepLessTotal | src/main.rs:38-42 | The derived order on `Dep` is total. |
| DepSort.Sort | src/main.rs:268 | The sorted list is a permutation of its input and is ascending. It has no duplicates if the input had none. |
| DepSort.InsertSorted | src/main.rs:268 | Inserting into an ascending list keeps it ascending. |
| DepSort.InsertDistinct | src/main.rs:268 | Inserting a new element into a duplicate-free list keeps it duplicate-free. |
| Tree.Visit | src/main.rs:273-281 | A node with a version adds its pair exactly when that pair is not yet seen, and `seen` always equals the set of accumulated pairs. A node without a version adds nothing. |
| Tree.Traverse | src/main.rs:272-287 | After visiting a subtree, the accumulator only grows and stays duplicate-free, `seen` matches it, and the new pairs are exactly those of nodes anywhere in the subtree that have a version. Children of a versionless node are included. |
| Tree.TraverseChildren | src/main.rs:282-286 | The loop over a node's children collects exactly the pairs that occur below those children, keeping the same invariants. |
| Collect.CollectDeps | src/main.rs:257-270 | The flattened list is strictly ascending by (name, version), so it has no duplicates. Its elements are exactly the `(name, version)` of the nodes, at any depth under the root's `dependencies`, that have a version. |
| Collect.AscendingUnique | src/main.rs:268 | Two strictly ascending lists with the same elements are equal. So the sorted, deduplicated output is fully determined by its element set. |
| Collect.OnlyOccurrencesMatter | src/main.rs:257-270 | Two trees with the same occurring pairs flatten identically, whatever their sibling order, sharing or nesting. |
| Collect.AscendingDistinct | src/main.rs:268 | A strictly ascending list has no duplicates. |
| CollectFacts.VersionlessNodeIsSearched | src/main.rs:273-286 | A versioned child of a top-level node that has no version is still reported. |
| CollectFacts.DiamondExample | src/main.rs:272-281 | A package shared under two parents is reported once, and the list comes out sorted. |
| Matcher.FindMatches | src/main.rs:289-308 | `any` holds exactly when the match list is non-empty. Every record reports a dependency from the input: `exact` exactly when its pair is denylisted, otherwise `name` with its name denylisted. Every denylisted pair yields an `exact` record, and every other dependency with a denylisted name yields a `name` record. |
| MatcherFacts.MatchesSubsequence | src/main.rs:291-305 | The reported dependencies form a subsequence of the input, in input order. |
| MatcherFacts.MatchesAscending | src/main.rs:291-305 | For a strictly ascending input, the records are strictly ascending by (name, version). |
| MatcherFacts.ReportedIffNameListed | src/main.rs:292-304 | For lists where every exact name is also a listed name (as the parser builds them), a dependency is reported if and only if its name is denylisted. |
| MatcherFacts.NoRecordWithoutListedName | src/main.rs:292-304 | For lists the parser builds, a dependency whose name is not denylisted is never reported. |
| MatcherFacts.EmptyListsMatchNothing | src/main.rs:289-308 | An empty denylist yields no matches. |
| MatcherFacts.Example | src/main.rs:289-308 | For the lists parsed from `left-pad` and `event-stream@3.3.6`, which hold the pair `(event-stream, 3.3.6)` and the names `left-pad` and `event-stream`, the records are exact `event-stream@3.3.6`, then name `event-stream@3.3.5`, then name `left-pad@1.0.0`. |

### Consequences of the code worth knowing

- `@foo` is a bare scoped name, not an empty-version error: a line whose only `@` is the leading one is returned as `Name` (src/main.rs:171-175).
- `foo@/bar` is rejected with "Version contains '/'", because the `/` check (src/main.rs:194) runs before the first-character check (src/main.rs:197-204).
- An exact line also denylists its name: the parser puts the name of every exact entry into `names` (src/main.rs:134). So with the lines `left-pad` and `event-stream@3.3.6`, the dependency `event-stream@3.3.5` is a name match (`MatcherFacts.Example`).

## Left out

- Command-line parsing (src/main.rs:10-36, 58): a library wrapper with no logic of its own.
- Output rendering, JSON serialisation, the `BTreeSet` listings and `process::exit` (src/main.rs:67-109): presentation and process control. `MatchType` carries a `Label` with the `exact`/`name` strings, and `Reason` carries a `Message` with the rejection strings. The surrounding "Invalid entry at line …" sentence is not formatted; `ParseError` keeps its three parts.
- `load_npm_tree_json` (src/main.rs:213-253): file and stdin reads, spawning `npm`, and `serde_json` decoding are I/O and foreign parsing. The tree arrives as a `Node`.
- Reading the file and `str::lines` (src/main.rs:118-119, 123): the denylist arrives as a sequence of lines. The carriage return that `lines()` strips is whitespace that `trim` would remove anyway.
- `HashSet` and `serde_json::Map` iteration order: children are kept in document order. `Collect.OnlyOccurrencesMatter` shows that the result does not depend on that order.
- Rust's stable merge sort is modelled as an insertion sort. For a total order on a duplicate-free list, both produce the one strictly ascending arrangement (`Collect.AscendingUnique`).
- `collect_deps` returns a `Result` that is always `Ok`. The model returns the list directly.
- Text.LastIndexOf: positions are character indices, not Rust's byte offsets. Slicing at the position of the ASCII `@` cuts the same text either way.
- `main`'s sequencing of parse, load, collect and match is orchestration and is not modelled as one function.
