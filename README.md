# Lifecycle analysis of a module's raw latest version (pkgsite)

This project models the analyzer in pkgsite's `internal/raw_latest.go` and proves its behaviour.
The analyzer reads the go.mod file of a module's "raw" latest version, which is the latest version
before retractions are considered. It works out two things:

- whether the module is deprecated, and why. The marker is a `Deprecated:` comment attached to the
  `module` directive.
- whether a given version is retracted, and with which rationale. This comes from the `retract`
  directives, compared in semantic-version order.

`PopulateModule` writes both answers into four fields of a `Module` record.

Files:

- `wrappers.dfy`: `Option`, which stands in for a Go pointer that may be nil.
- `go_strings.dfy`: Go's `strings.TrimSpace`, `strings.TrimPrefix` and the prefix test.
  `TrimSpace` uses the whitespace set of `unicode.IsSpace`. A string is its sequence of code points.
- `semver.dfy`: the part of `golang.org/x/mod/semver` that is used, which is `Compare`.
  - It parses `vMAJOR[.MINOR[.PATCH]]` (`v1` and `v1.2` are shorthands) with no leading zeros.
  - It orders versions by major, then minor, then patch.
  - Invalid strings sort below valid ones and compare equal to each other.
  - It proves that `Compare` is a total preorder, and that canonical spellings round-trip.
- `modfile.dfy`: the output of the go.mod parser, as plain datatypes.
  - The optional `module` directive, with its `before`, `suffix` and `after` comment lists.
  - The `retract` directives: `[low, high]` plus a rationale.
- `raw_latest.dfy`: the analyzer.
  - `IsDeprecated` and `IsRetracted`: the two linear searches, written as recursive scans
    `FindDeprecation` and `FindRetraction`.
  - The `Module` record as a class with mutable fields.
  - `RawLatestInfo.PopulateModule` as a method that assigns the four fields in place.

Points where the code's behaviour is easy to misread:

- The code removes exactly one leading `//` (`strings.TrimPrefix`), so `//// Deprecated: x` does
  not match. `DoubledMarkerExample` shows this.
- A `Deprecated:` comment with nothing after it deprecates the module with an empty reason.
  `EmptyReasonExample` shows this.
- Any string reaches `semver.Compare`. An invalid version is retracted only by a directive whose
  low end is also invalid. `InvalidVersionRetraction` shows this.
- The code dereferences its pointers without a nil check (see "Left out").

## Model

| member | source | states |
|---|---|---|
| `RawLatest.CommentText` | internal/raw_latest.go:41 | Defines a comment's text as `TrimSpace(TrimPrefix(token, "//"))`, and states that the text is trimmed. `CommentTextOf` characterises it. |
| `RawLatest.IsDeprecationComment` | internal/raw_latest.go:42 | Defines the match as the `Deprecated:` prefix test on the comment's text. It has no contract of its own; `DeprecationCommentOf`, `LowerCaseExample`, `NoColonExample` and `DoubledMarkerExample` characterise it. |
| `RawLatest.DeprecationText` | internal/raw_latest.go:43 | Defines the reason as the text after the 11-character marker, trimmed, and states that the reason is trimmed. `ReasonAfterMarker` characterises it. |
| `RawLatest.ScannedComments` | internal/raw_latest.go:40 | Defines the comments the loop visits as `append(Before, Suffix...)`: the before comments, then the same-line comments. It has no contract of its own; `IsDeprecated` is stated over it, and `BeforeCommentsFirst` and `DeprecationDependsOnlyOnComments` characterise the order and what it reads. |
| `RawLatest.FindDeprecation` | internal/raw_latest.go:40-46 | The scan reports true exactly when some comment's text, after one `//` is removed and the rest is trimmed, starts with `Deprecated:`. The first such comment gives the reason. The reason is trimmed. A false result comes with `""`. |
| `RawLatest.IsDeprecated` | internal/raw_latest.go:34-47 | With no module directive the result is `(false, "")`. Otherwise it is true exactly when a before or suffix comment matches. The first match in before-then-suffix order gives the reason, which carries no surrounding whitespace. False always comes with `""`. |
| `RawLatest.FindDeprecationAppend` | internal/raw_latest.go:40-44 | Scanning `a + b` gives the result for `a` when `a` has a match, and otherwise the result for `b`. |
| `RawLatest.BeforeCommentsFirst` | internal/raw_latest.go:40 | A match among the before comments decides, whatever the suffix comments hold. With no such match, the suffix comments decide. |
| `RawLatest.LaterCommentsIgnored` | internal/raw_latest.go:42-44 | Once a comment has matched, appending more comments never changes the result. |
| `RawLatest.DeprecationDependsOnlyOnComments` | internal/raw_latest.go:37-46 | The result depends only on the before and suffix tokens. The module path, the after comments and the retract list do not affect it, so recomputation agrees. |
| `RawLatest.CommentTextOf` | internal/raw_latest.go:41 | The text of a token `//` + whitespace + trimmed body + whitespace is exactly the body. |
| `RawLatest.ReasonAfterMarker` | internal/raw_latest.go:43 | The trimmed text after the 11-character marker `Deprecated:` is the reason that follows the marker and its spaces. |
| `RawLatest.DeprecationCommentOf` | internal/raw_latest.go:41-43 | A token `//`, spaces, `Deprecated:`, spaces, a trimmed reason (possibly empty), then spaces, is a matching comment whose reason is exactly that text. |
| `RawLatest.EmptyReasonExample` | internal/raw_latest.go:40-43 | `// Deprecated:` followed only by spaces yields `(true, "")`. |
| `RawLatest.DeprecatedExample` | internal/raw_latest.go:40-43 | `// Deprecated: use baz instead` before the module line yields `(true, "use baz instead")`. |
| `RawLatest.SuffixExample` | internal/raw_latest.go:40-43 | A non-matching before comment followed by the same-line comment `//Deprecated:gone` yields `(true, "gone")`. |
| `RawLatest.LowerCaseExample` | internal/raw_latest.go:35-42 | `// deprecated: lower case` does not match, because the marker is case-sensitive. |
| `RawLatest.NoColonExample` | internal/raw_latest.go:35-42 | `// Deprecated without colon` does not match, because the marker needs its colon. |
| `RawLatest.DoubledMarkerExample` | internal/raw_latest.go:41-42 | `//// Deprecated: doubled marker` does not match, because only one leading `//` is removed. |
| `RawLatest.InInterval` | internal/raw_latest.go:53 | Defines the test `Compare(v, low) >= 0 && Compare(v, high) <= 0`. It has no contract of its own; `EndpointsRetracted`, `InvertedIntervalEmpty`, `SingleVersionRetracted` and `InvalidVersionRetraction` characterise it. |
| `RawLatest.FindRetraction` | internal/raw_latest.go:52-57 | The scan reports true exactly when some directive has `low <= v <= high` in semver order. The first such directive in file order gives the rationale. A false result comes with `""`. |
| `RawLatest.IsRetracted` | internal/raw_latest.go:51-58 | The same over the file's retract list. An empty list, or one where no interval contains the version, yields `(false, "")`. |
| `RawLatest.FindRetractionAppend` | internal/raw_latest.go:52-55 | A directive that contains the version is never overridden by later directives. With no match in the first part, the later part decides. |
| `RawLatest.EndpointsRetracted` | internal/raw_latest.go:53 | The interval is inclusive: when `low <= high`, both `low` and `high` are retracted. |
| `RawLatest.InvertedIntervalEmpty` | internal/raw_latest.go:53 | A directive with `low > high` in semver order retracts no version. |
| `RawLatest.SingleVersionRetracted` | internal/raw_latest.go:52-55 | `retract [x, x]` retracts exactly the versions semver considers equal to `x`. Among canonical spellings, that is exactly `x`. |
| `RawLatest.InvalidVersionRetraction` | internal/raw_latest.go:53 | An invalid resolved version falls in an interval exactly when the interval's low end is invalid too. |
| `RawLatest.RetractHighEndExample` | internal/raw_latest.go:52-55 | `retract [v1.0.0, v1.2.0] // bug` retracts v1.2.0 with rationale `bug`. |
| `RawLatest.AboveHighEndExample` | internal/raw_latest.go:52-57 | The same directive does not retract v1.2.1, and the result is `(false, "")`. |
| `RawLatest.SemverNotLexicalExample` | internal/raw_latest.go:53 | `retract [v1.0.0, v1.9.0]` does not retract v1.10.0. The comparison is numeric, not textual. |
| `RawLatest.OverlappingRetractionsExample` | internal/raw_latest.go:52-55 | With overlapping directives "first" and "second", a version in both gets the rationale of the first. |
| `RawLatest.Module` | internal/raw_latest.go:25-27 | The `*Module` that `PopulateModule` updates, as a class whose fields are assigned in place. `LifecycleConsistent` states that a false flag comes with an empty string. |
| `RawLatest.RawLatestInfo.PopulateModule` | internal/raw_latest.go:24-28 | Sets `Deprecated`/`DeprecationComment` from the go.mod, and `Retracted`/`RetractionRationale` for the module's own `Version`. Every other field of the module keeps its value. Afterwards a false flag comes with an empty string. |
| `RawLatest.RawLatestInfo.constructor` | internal/raw_latest.go:18-22 | The record holds the module path, the version and the parsed go.mod it was built with. |
| `GoStrings.IsSpace` | internal/raw_latest.go:41 | Defines `unicode.IsSpace`, the set `strings.TrimSpace` removes: tab, newline, vertical tab, form feed, carriage return, space, U+0085, U+00A0 and the Unicode `White_Space` characters above U+00FF. It has no contract of its own; `TrimSpace`, `TrimSpaceRemovesSpace` and `TrimSpaceOf` are stated over it. |
| `GoStrings.TrimSpace` | internal/raw_latest.go:41 | `strings.TrimSpace`: the result neither starts nor ends with `unicode.IsSpace` whitespace. `TrimSpaceRemovesSpace` and `TrimSpaceOf` characterise it fully. |
| `GoStrings.TrimPrefix` | internal/raw_latest.go:41 | `strings.TrimPrefix`: when `s` starts with the prefix, prefix + result is `s`; otherwise the result is `s`. |
| `GoStrings.TrimSpaceRemovesSpace` | internal/raw_latest.go:41 | `TrimSpace` keeps a contiguous slice of its input, and everything it removes at either end is whitespace. |
| `GoStrings.TrimSpaceOf` | internal/raw_latest.go:41 | Whitespace around a trimmed middle part trims to exactly that part. |
| `GoStrings.TrimSpaceIdempotent` | internal/raw_latest.go:41 | Trimming twice equals trimming once. |
| `Semver.Parse` | internal/raw_latest.go:53 | Defines semver's parse of `vMAJOR[.MINOR[.PATCH]]`, as `semver.Compare` uses it. It has no contract of its own; `ParseFormat` and `CanonicalCompareZero` characterise it. |
| `Semver.Compare` | internal/raw_latest.go:53 | Defines `semver.Compare`: invalid below valid, invalid equal to invalid, valid by major, minor and patch. It has no contract of its own; `CompareZero`, `CompareAntisymmetric` and `CompareTransitive` characterise it. |
| `Semver.IsValid` | internal/raw_latest.go:53 | Defines `semver.IsValid` as "`Parse` succeeds", which decides the invalid-below-valid cases of `Compare` at line 53. It has no contract of its own; `InvalidVersionRetraction` is stated over it, and `ParseFormat` shows every canonical spelling is valid. |
| `Semver.ParseFormat` | internal/raw_latest.go:53 | Every version parses back from its canonical spelling `vMAJOR.MINOR.PATCH`, and that spelling is canonical. |
| `Semver.CompareZero` | internal/raw_latest.go:53 | `Compare` answers 0 exactly when both strings denote the same version, or both are invalid. |
| `Semver.CompareAntisymmetric` | internal/raw_latest.go:53 | `Compare(v, w) == -Compare(w, v)`, with the result in {-1, 0, 1}. |
| `Semver.CompareTransitive` | internal/raw_latest.go:53 | `Compare(u, v) <= 0` and `Compare(v, w) <= 0` imply `Compare(u, w) <= 0`. |
| `Semver.CanonicalCompareZero` | internal/raw_latest.go:53 | For canonical spellings, comparing equal is string equality. |
| `Semver.NumericOrderExample` | internal/raw_latest.go:53 | v1.10.0 compares above v1.9.0. |
| `Semver.SpellingExample` | internal/raw_latest.go:53 | The spellings `v1.9.0` and `v1.10.0` first differ at index 3, where `v1.10.0` has the smaller character. This is the textual order that `NumericOrderExample` and `SemverNotLexicalExample` show semver does not follow. |

## Left out

- `internal/worker/refetch_test.go` drives `FetchAndUpdateState` against a database and a fake
  proxy. The fetch, store and overwrite-validation code it exercises is not part of this model,
  so the re-fetch and "insert invalid" rules are not modelled.
- go.mod text parsing is not modelled. `ModFile.File` models only its output: the module
  directive's comment lists and the retract intervals.
- Semver.Parse: does not model prerelease (`-rc.1`) or build-metadata (`+meta`) suffixes. It
  treats such versions as invalid, so they sort below every valid version. Section 11 of Semantic
  Versioning 2.0.0 would place `v1.0.0-rc.1` just below `v1.0.0`. Go's `semver.Compare` ignores
  build metadata, so `v2.0.0+incompatible` compares equal to `v2.0.0` and `retract [v2.0.0, v2.0.0]`
  retracts it in Go; in this model that version is invalid, and no directive with a valid low end
  retracts it.
- RawLatest.IsDeprecated: takes the parsed go.mod by value. The source dereferences the
  `*modfile.File` pointer, and a nil pointer panics there; that panic is not modelled.
  `isRetracted` (internal/raw_latest.go:52) dereferences the same pointer, and `PopulateModule`
  (internal/raw_latest.go:25-27) dereferences both its receiver `r` and its argument `m`. Dafny
  class references are non-null, so none of these panics is modelled either.
- Strings are sequences of Unicode code points. Invalid UTF-8 in a comment token, whose handling
  by `strings.TrimSpace` depends on byte decoding, is not modelled.
- RawLatest.Module: the `Module` type is defined outside `raw_latest.go`. The class keeps the
  four fields that `PopulateModule` writes, plus a representative set of the others (path,
  version, commit time, redistributable flag, go.mod flag, licenses, units), to state that these
  stay unchanged.
- `RawLatestInfo.ModulePath` and `RawLatestInfo.Version` are carried but not read:
  `PopulateModule` uses the module's own `Version`, as the source does.
