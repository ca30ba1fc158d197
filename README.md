# go-changelog core, modelled in Dafny

This project models the analysis core of go-changelog. It covers three parts.

- **Note extractor** (`note.go`). It finds release-note blocks fenced as
  ```` ```release-note ```` / ```` ```releasenote ```` (untyped) and
  ```` ```release-note:<type> ```` / ```` ```releasenote:<type> ```` (typed) in
  an entry body. It trims what the named groups capture, drops a match whose
  trimmed type and note are both empty, and sorts the notes by Type, then
  Issue, then Body.
- **Section parser** (`parser/parser.go`, `parser/errors.go`). It finds the
  header and body of one version's section in a changelog document. It uses
  the default pattern `(?s)(?P<header>## %s[^\n]*)\n(?P<body>.+?)\n(?:## .+|$)`
  with the version QuoteMeta-escaped, or a caller-supplied format. It returns
  the byte ranges (`SectionRange`) or the trimmed slices (`Section`), and a
  `VersionNotFoundErr` when the pattern does not match.
- **Entry diff** (`entry.go`). Given a clone of a repository, `Diff` finds the
  entry files in a directory that exist at `ref2` but not at `ref1` (`"-"`
  means no lower bound). It reads each one at `ref2` together with the newest
  commit that touched it, and sorts the results by Issue.

Files:

| file | module | contents |
|---|---|---|
| `wrappers.dfy` | `Wrappers` | `Option`, `Result` (with `:-` support) |
| `strings.dfy` | `Strings` | ASCII `TrimSpace`, Go's `<` on strings (`Less`), literal search |
| `sorting.dfy` | `Sorting` | `sort.Slice` as an in-place sort on an `array`, uniqueness of sorted permutations |
| `note_patterns.dfy` | `NotePatterns` | the four `textInBodyREs` patterns, their RE2 leftmost-first semantics, a scanner proved against it, `FindAllStringSubmatch` |
| `note.dfy` | `Notes` | `Note`, `SortNotes`, `NotesFromEntry` |
| `parser_errors.dfy` | `ParserErrors` | `VersionNotFoundErr` with `Is`/`Error`, and the parser's error values |
| `section_pattern.dfy` | `SectionPattern` | `QuoteMeta`, the default section pattern's semantics and scanner, and the table-test documents of `parser/parser_test.go` |
| `parser.dfy` | `SectionParsers` | `SectionParser` (a class), `NewSectionParser`, `findSubexpIndexes`, `SectionRange`, `Section` |
| `entry.dfy` | `Entries` | `Entry`, an abstract repository (`Repository`, a class with a mutable worktree head), `Diff` |

How the regular expressions are modelled. The program runs only five fixed
patterns: four note patterns and the default section pattern. For each one
the model states, as a predicate, which parses are valid for it and which
parse RE2's leftmost-first rule picks. It then computes the match with a
scanner function and proves the scanner picks exactly that parse. A regular
expression built from a caller-supplied `RegexpFormat` is outside what can be
modelled this way. It is the `engine` parameter: a function from (format,
quoted version, document) to a compile error, or to the group names and
match locations. The model keeps RE2's guarantee that a match returns
`2 * len(names)` locations.

Where the code and its documented behaviour differ, the model follows the
code.

- The greedy `.+` / `.*` of the note patterns make each pattern match at most
  once per body (`NotePatterns.AtMostOneMatch`). Two blocks of the same form
  therefore become one note whose body spans from the first opener to the
  last fence. They are not two notes (`Notes.MergedBlocksExample`; a single
  block is `Notes.BugNoteExample`).
- The default section pattern has no `^`. So `### 0.12.0` and `## 0.12.01`
  both match version `0.12.0`
  (`SectionPattern.DefaultSearchDeeperHeading`,
  `SectionPattern.DefaultSearchLongerVersion`).
- `Diff` ignores the error of checking out `ref1` (`entry.go:79-82`). With a
  failed checkout the worktree stays at `ref2`, nothing new is found, and
  `Diff` returns no entries rather than an error
  (`Entries.FailedRef1CheckoutReportsNothing`).
- The `Diff` doc comment mentions filtering by the commit date of `ref1`. The
  code does no such filtering, and neither does the model.

## Model

| member | source | states |
|---|---|---|
| NotePatterns.ScanAtIsLeftmostFirst | note.go:15-20 | at a start position, the scanner's parse is the one RE2 prefers among all valid parses of the pattern; when the scanner finds none, no parse exists there |
| NotePatterns.FindFrom | note.go:25 | the next match at or after a position is at the leftmost start where a match exists, is the preferred parse there, and no start before it matches |
| NotePatterns.NoMatchAfter | note.go:15-20 | once a match has been taken, no later, non-overlapping match of the same pattern exists |
| NotePatterns.AtMostOneMatch | note.go:15-25 | FindAllStringSubmatch of any note pattern returns at most one match per body |
| NotePatterns.NoOpenerNoMatch | note.go:15-28 | a body where the opener never starts a line yields no matches |
| NotePatterns.MatchOf | note.go:16-19 | a valid parse is a match starting at its position, inside the body, with one capture per subexpression name |
| NotePatterns.FindAllStringSubmatch | note.go:25 | every match carries one capture per subexpression name |
| NotePatterns.FindAll | note.go:25 | from a position on, the successive non-overlapping matches each carry one capture per subexpression name |
| NotePatterns.NoMatchExtends | note.go:25 | a start where the pattern does not match extends the stretch without matches before the next match |
| Notes.SortNotesIsLexicographic | note.go:63-80 | the comparator is the lexicographic order on (Type, Issue, Body) |
| Notes.SortNotesTransitive | note.go:63-80 | the comparator is transitive |
| Notes.SortNotesConnected | note.go:63-80 | any two distinct notes are ordered one way or the other |
| Notes.SortNotesStrictTotalOrder | note.go:63-80 | the comparator is a strict total order and asymmetric |
| Notes.CaptureFound | note.go:33-39 | a non-empty capture comes from a group with that name |
| Notes.CaptureStable | note.go:33-43 | the capture of a name does not change over groups with other names, so the early break changes nothing |
| Notes.NamedGroups | note.go:31-43 | the loop over SubexpNames yields the captures of the `note` and `type` groups |
| Notes.MatchNotes | note.go:30-57 | each match gives at most one note, and every note has the entry's Issue, trimmed Type and Body, and is not empty in both |
| Notes.MatchNotesStep | note.go:30-57 | processing one more match appends exactly that match's note, or nothing when it is discarded |
| Notes.TrimmedNoteStep | note.go:45-56 | one more match appends the note of its trimmed captures with the entry's Issue, or nothing when both trimmed captures are empty |
| Notes.NotesOfMatches | note.go:30-57 | the loop over one pattern's matches returns the notes of those matches in match order, as MatchNotes defines them |
| Notes.CollectStep | note.go:24-29 | the notes of one more pattern are those of its matches; a pattern with no match adds nothing, so the early `continue` changes nothing |
| Notes.CollectNotes | note.go:24-58 | the loop over the four patterns returns the notes of every pattern, in pattern order |
| Notes.CollectedUpToEmpty | note.go:24-58 | when none of the first k patterns yields a note, nothing has been collected |
| Notes.UntypedNoteOfHasNoType | note.go:16-38 | a note from an untyped pattern has an empty Type |
| Notes.UntypedNotesHaveNoType | note.go:16-57 | every note from an untyped pattern has an empty Type |
| Notes.CollectedUpToWellFormed | note.go:24-58 | the notes of the first k patterns are well formed and at most k |
| Notes.CollectedWellFormed | note.go:24-58 | all collected notes are well formed and at most one per pattern |
| Notes.NoMarkerNoPatternNotes | note.go:24-28 | a pattern whose marker never starts a line contributes no notes |
| Notes.NoMarkerNoNotes | note.go:22-61 | a body where no line starts with a release-note marker has no notes |
| Notes.SortedNotes | note.go:59 | the sorted notes are a permutation of the input and ordered by SortNotes |
| Notes.NotesFromEntry | note.go:22-61 | the result is a permutation of the notes the four patterns collect, sorted by SortNotes, each well formed |
| Notes.CollectedOnlyThird | note.go:22-58 | when the untyped patterns and the `releasenote:` pattern yield nothing, the collected notes are those of the `release-note:` pattern |
| Notes.TypedNoteOf | note.go:30-57 | a typed match gives the note of its trimmed `type` and `note` groups with the entry's Issue, or nothing when both trim to empty |
| Notes.TypedReleaseNoteOnly | note.go:15-58 | a body holding one `release-note:` block from its start to its only closing fence, and no other opener, gives the one note of that block's trimmed type line and text |
| Notes.SingleTypedBlock | note.go:15-58 | a body that is one `release-note:` fence around a type line and text, with no other opener inside, gives exactly the note of the trimmed type and text |
| Notes.TypeLineBlock | note.go:18 | in such a block the type group ends at the first line break and the note group runs to the closing fence |
| Notes.BugNoteExample | note.go:15-61 | a body that is one `release-note:bug` block collects exactly one note of type `bug` carrying the block's text and the entry's Issue |
| Notes.MergedBlocksExample | note.go:15-61 | two `release-note:bug` blocks in a row collect one note whose text runs from the first type line through the inner fences to the last fence |
| NotePatterns.OpenerChars | note.go:16-19 | each pattern's opener starts with a fence and `r`, and its eleventh and last characters tell the four patterns apart |
| NotePatterns.OnlyTypedReleaseNoteOpeners | note.go:16-19 | a body where every fence followed by `r` begins `release-note:` has no match of the other three patterns |
| NotePatterns.OtherPatternNoMatch | note.go:16-19 | in such a body any pattern other than the `release-note:` one never finds its opener and matches nothing |
| NotePatterns.OneTypedFind | note.go:18 | on one typed block, the first match starts at 0 with its type ending at the first line break and its note at the last fence, and none starts at the end |
| NotePatterns.OnlyMatchAtStart | note.go:25 | when the only match starts at 0 and covers the body, FindAllStringSubmatch returns exactly that match |
| NotePatterns.TypedMatchOf | note.go:18 | a typed parse's groups are the whole match, the type up to its end, and the note |
| NotePatterns.OneTypedMatch | note.go:18-25 | a body that is one typed block has exactly one match, whose groups are the block, its type line and its text |
| NotePatterns.TypedBlockOpeners | note.go:18 | a fenced `release-note:` block whose text only opens further `release-note:` blocks has no other opener |
| NotePatterns.TypedBlockIsOne | note.go:18 | a fenced `release-note:` block whose text has its first line break at e is one typed block, with type and note slices taken from the text |
| NotePatterns.CutBlockIsOne | note.go:18 | the same for any body that cuts into the opener, the text and a closing fence |
| Notes.NotesFromEntryDeterministic | note.go:59-80 | any two sorted permutations of the collected notes are equal, so the unstable sort does not affect the result |
| Sorting.SortSlice | note.go:59 | the array ends sorted by the less function and holds the same elements |
| Sorting.InsertRound | note.go:59 | one round of the sort extends the sorted prefix of the array by one element, keeps the elements of that prefix and leaves the rest of the array unchanged |
| Sorting.SameSuffixSamePrefix | note.go:59 | two permutations of each other that agree after position k have prefixes up to k that are permutations of each other, so an insertion round keeps the prefix's elements |
| Sorting.SortedUnique | note.go:59 | under a strict total order, two sorted sequences with the same elements are equal |
| Strings.TrimSpace | note.go:45-46 | the result is a slice of the input with no leading or trailing whitespace, what is cut off on either side is all whitespace, and it is empty exactly when the input is all whitespace |
| Strings.TrimSpaceIs | parser/parser.go:119-120 | trimming returns the span between the first and last non-space characters |
| Strings.TrimSpaceKeeps | parser/parser.go:119-120 | a non-empty string without outer whitespace is left unchanged |
| Strings.LessIrreflexive | note.go:65 | no string is less than itself |
| Strings.LessTransitive | note.go:65-71 | string `<` is transitive |
| Strings.LessTrichotomous | note.go:65-75 | of two strings, one is less or they are equal |
| ParserErrors.VersionNotFoundErr.Error | parser/errors.go:17-19 | the message is "version ", the version, " not found" |
| ParserErrors.IsIsVersionEquality | parser/errors.go:9-15 | Is holds exactly for a not-found error carrying an equal version |
| ParserErrors.IsFalseForOtherErrors | parser/errors.go:9-13 | Is is false for every other kind of error |
| ParserErrors.IsReflexive | parser/errors.go:9-15 | an error Is itself |
| ParserErrors.IsSymmetric | parser/errors.go:9-15 | Is is symmetric between not-found errors |
| ParserErrors.ErrorInjective | parser/errors.go:17-19 | two not-found errors with the same message are the same error |
| SectionPattern.QuoteMeta | parser/parser.go:52 | escaping never shortens the version |
| SectionPattern.UnquoteQuoteMeta | parser/parser.go:52 | the escaped version is a literal pattern that matches exactly the original text |
| SectionPattern.QuoteMetaPlain | parser/parser.go:52 | a version without special characters is left unchanged |
| SectionPattern.QuoteMetaCons | parser/parser.go:52 | escaping works character by character and backslashes exactly the special characters |
| SectionPattern.QuoteMetaVersionExample | parser/parser.go:52 | "0.12.0" is escaped to `0\.12\.0` |
| SectionPattern.HeaderEndForced | parser/parser.go:11-13 | in every parse at a position, the header ends at the first newline after `## ` and the version |
| SectionPattern.BodyEnd | parser/parser.go:12-13 | the lazy body stops at the first position where `\n## ` follows or the document ends |
| SectionPattern.ScanFrom | parser/parser.go:11-13 | a parse the scanner returns is valid for the default pattern and starts at or after the position |
| SectionPattern.NoParseWhereScanFails | parser/parser.go:11-13 | where the header has no newline or the body no terminator, no parse starts there |
| SectionPattern.ScanFromIsLeftmostFirst | parser/parser.go:11-13 | the scanner's parse has the leftmost start and the shortest body; when it finds none, no parse exists |
| SectionPattern.DefaultSearch | parser/parser.go:11-15 | the default pattern's group names are "", header, body |
| SectionPattern.DefaultSearchIsLeftmostFirst | parser/parser.go:62 | FindSubmatchIndex finds nothing exactly when no parse exists; otherwise its locations are the leftmost-first parse, and the match runs to the end of the document |
| SectionPattern.DefaultSearchFinds | parser/parser.go:62 | when a parse is the leftmost-first one, FindSubmatchIndex reports its start, the document end, and its header and body bounds |
| SectionPattern.DefaultLeftmostUnique | parser/parser.go:11-13 | the leftmost-first parse is unique |
| SectionPattern.DefaultSearchUnreleased | parser/parser_test.go:42-58 | the locations found in the "unreleased" document |
| SectionPattern.UnreleasedTrimmed | parser/parser_test.go:53-56 | the trimmed header and body of the "unreleased" document |
| SectionPattern.DefaultSearchReleasedTop | parser/parser_test.go:59-77 | the locations found in the "released - top" document |
| SectionPattern.ReleasedTopTrimmed | parser/parser_test.go:71-75 | the trimmed header and the two-line body of the "released - top" document |
| SectionPattern.DefaultSearchOtherVersions | parser/parser_test.go:28-41 | a document holding only other versions has no match |
| SectionPattern.DefaultSearchEmpty | parser/parser_test.go:21-27 | an empty document has no match |
| SectionPattern.DefaultSearchDeeperHeading | parser/parser.go:11 | an unanchored header: `### 0.12.0` matches version 0.12.0 from its second character |
| SectionPattern.DefaultSearchLongerVersion | parser/parser.go:11 | `## 0.12.01` matches version 0.12.0, since `[^\n]*` takes the rest of the line |
| SectionParsers.FirstIndexFrom | parser/parser.go:94-99 | the first index at or after i holding the name, or none when no later index holds it |
| SectionParsers.SubexpIndexes | parser/parser.go:93-102 | succeeds exactly when the name is a group name; then (2i, 2i+1) for the first such group i; otherwise the not-found error for that name |
| SectionParsers.FindSubexpIndexes | parser/parser.go:93-102 | the loop returns SubexpIndexes's answer |
| SectionParsers.SectionParser.constructor | parser/parser.go:29-32 | a parser holds the document and the default format |
| SectionParsers.NewSectionParser | parser/parser.go:23-33 | a read error is returned as such; otherwise a new parser with the document and the default format |
| SectionParsers.SectionParser.EffectiveFormat | parser/parser.go:44-49 | an empty RegexpFormat falls back to the default format; any other is used as is |
| SectionParsers.SectionParser.Regexp | parser/parser.go:51-54 | the pattern is the effective format with the QuoteMeta-escaped version |
| SectionParsers.SectionParser.SectionRange | parser/parser.go:56-87 | a not-found error carries the requested version |
| SectionParsers.SectionParser.Section | parser/parser.go:109-122 | on success the range lookup succeeded and header and body have no outer whitespace; other errors are the range lookup's own |
| SectionParsers.CompileErrorFirst | parser/parser.go:57-60 | a format that does not compile fails both operations with the compile error |
| SectionParsers.NotFoundBeforeGroups | parser/parser.go:62-65 | no match gives VersionNotFoundErr for v, whatever the group names, and errors.Is recognises it |
| SectionParsers.MissingGroupAfterMatch | parser/parser.go:67-75 | after a match, a missing header group fails first, then a missing body group; both present is success |
| SectionParsers.RangesOfFirstGroups | parser/parser.go:77-86 | the ranges are the locations of the first groups named header and body |
| SectionParsers.SectionSlicesRanges | parser/parser.go:115-121 | Section succeeds exactly when both ranges lie in the document, and returns the trimmed slices of those ranges |
| SectionParsers.DefaultIgnoresEngine | parser/parser.go:51-54 | with the default format the result does not depend on the engine for user formats |
| SectionParsers.DefaultFailsOnlyWhenAbsent | parser/parser.go:56-75 | for a version that is valid UTF-8 (every version of the model, which has one character per byte), with the default format the lookup fails exactly when the pattern cannot match, and then with VersionNotFoundErr |
| SectionParsers.DefaultRanges | parser/parser.go:56-87 | with the default format the header starts with `## v`, holds no newline after it, and ends at a newline directly followed by the non-empty body, which ends at a terminator; both ranges lie in the document |
| SectionParsers.DefaultSectionRange | parser/parser.go:56-87 | with the default format, no match gives VersionNotFoundErr for v, and a match gives the locations of groups 1 and 2 as the header and body ranges |
| SectionParsers.DefaultLeftmostFacts | parser/parser.go:11-13 | a leftmost-first parse starts with `## v`, has no newline in the rest of the header line, ends the header at a newline and the non-empty body at a terminator |
| SectionParsers.SectionOfEmptyLog | parser/parser_test.go:21-27 | an empty log gives VersionNotFoundErr for 0.12.0 |
| SectionParsers.SectionOfOtherVersions | parser/parser_test.go:28-41 | a log of other versions gives VersionNotFoundErr for 0.12.0 |
| SectionParsers.UnreleasedRanges | parser/parser_test.go:42-58 | the byte ranges of the "unreleased" section |
| SectionParsers.SectionOfUnreleased | parser/parser_test.go:42-58 | header "## 0.12.0 (Unreleased)", body "something" |
| SectionParsers.ReleasedTopRanges | parser/parser_test.go:59-77 | the byte ranges of the "released - top" section |
| SectionParsers.SectionOfReleasedTop | parser/parser_test.go:59-77 | header "## 0.12.0", body "matching text\nwith newline" |
| Entries.Repository.constructor | entry.go:41-46 | a clone with its revisions, trees and history, and the worktree at a commit with a tree |
| Entries.Repository.ResolveRevision | entry.go:47-57 | a known revision resolves to its hash; an unknown one gives the resolve error naming it |
| Entries.Repository.Checkout | entry.go:62-96 | succeeds exactly when the commit has a tree and then moves the worktree there; a failed checkout leaves it where it was |
| Entries.Repository.ReadDir | entry.go:68-86 | the listing of the directory at the checked-out commit, or the read-directory error |
| Entries.Repository.Open | entry.go:101-105 | the file at the checked-out commit, or the open error naming the file |
| Entries.Repository.Log | entry.go:111-114 | the path-filtered log from the checked-out commit, or the log error |
| Entries.ReadAll | entry.go:106-110 | the file's contents, or the read error naming the file |
| Entries.Next | entry.go:115-118 | the newest commit of the log, or an error for an empty log |
| Entries.Candidates | entry.go:47-97 | on success ref2 resolved, and its commit has a tree |
| Entries.EntryFor | entry.go:100-124 | an entry read for a name has that name as its Issue |
| Entries.CollectNames | entry.go:74-77 | the candidates are exactly the names listed |
| Entries.DeleteNames | entry.go:87-89 | the candidates lose exactly the names listed at ref1 |
| Entries.ReadEntries | entry.go:99-125 | on success one entry is read at ref2 for every candidate, no entry twice; on failure the error is that of a candidate that cannot be read |
| Entries.ReadStep | entry.go:100-124 | appending the entry read for one more name keeps every entry as read at ref2, the Issues equal to the names taken, and no entry twice |
| Entries.ReadCovers | entry.go:100-125 | once every name has been taken, every candidate has a readable entry |
| Entries.IssueLessStrictWeakOrder | entry.go:127-129 | comparing entries by Issue meets the ordering condition sort.Slice needs |
| Entries.SortedEntries | entry.go:127-129 | the entries end sorted by Issue and are a permutation of the input |
| Entries.DistinctIssuesSorted | entry.go:119-129 | sorting entries read for distinct names gives them strictly ascending by Issue |
| Entries.Diff | entry.go:40-132 | a clone error is returned as is; otherwise the result is DiffResult: the first resolve, checkout or listing error, or the entries of all new names strictly ascending by Issue, or the error of one unreadable candidate |
| Entries.CandidatesSucceedsIff | entry.go:47-97 | the first part succeeds exactly when ref2 resolves, ref1 is "-" or resolves, ref2's commit has a tree listing dir, and, unless ref1 is "-", ref1's tree lists dir when ref1's commit has a tree (otherwise the worktree stays at ref2); an unknown ref2 is reported before an unknown ref1 |
| Entries.CandidatesAreNewNames | entry.go:72-89 | a name is a candidate exactly when it is listed at ref2 and, unless ref1 is "-", not listed at ref1; contents are not compared |
| Entries.DiffEntriesAreNew | entry.go:72-125 | every reported entry is new at ref2, with its contents there and the hash and date of the newest commit touching it |
| Entries.DashReportsAll | entry.go:51-78 | with "-" as ref1 every entry listed at ref2 is reported |
| Entries.SameRevisionReportsNothing | entry.go:72-89 | diffing a revision against itself reports nothing |
| Entries.FailedRef1CheckoutReportsNothing | entry.go:79-89 | the ignored checkout error of ref1 leaves nothing to report |
| Entries.AscendingUnique | entry.go:119-129 | entries read at one revision for one set of names, ascending by Issue, form one sequence only |
| Entries.AscendingHeads | entry.go:119-129 | two such sequences start with the same entry |
| Entries.SingleEntry | entry.go:119-129 | the entries for a single name are the one entry read for it |
| Entries.DiffDeterministic | entry.go:100-129 | a successful Diff does not depend on map iteration order |
| Entries.ExampleCandidates | entry.go:47-97 | on the example, v2 resolves to h2 and 103.txt is the only new name |
| Entries.ExampleDiff | entry.go:40-132 | with 101 and 102 at v1 and 101, 102 and 103 at v2, Diff reports exactly 103 with its contents and newest commit |

## Left out

- The `cmd/` programs (argument parsing, GitHub calls, templates, file output) are not part of this model. Neither is `DiffLocal`, which `entry_test.go` calls.
- Cloning needs the network. The clone's outcome is a parameter of `Diff`: a failure, or a `Repository` with its revisions, trees and history.
- go-git internals are left out. Revision resolution is a map, checkout succeeds exactly when the commit has a tree, and the path-filtered log is a given sequence per (commit, path).
- A failing `Worktree()` call (`entry.go:58-61`) is not modelled. The in-memory clone always has a worktree.
- `Entries.Repository.Checkout`: assumes a failed checkout leaves the worktree unchanged, because go-git's partial-checkout behaviour is not modelled.
- `filepath.Join` cleaning is not modelled. A path is the pair (directory, name).
- Error wrapping (`fmt.Errorf` with `%w`) is left out. Each error is a constructor naming the failed step and the revision, directory or file; the error text is not modelled.
- `Entries.ReadEntries`: Go's map iteration order is unspecified. The model picks any remaining candidate, so on failure it promises only that the error belongs to some unreadable candidate.
- `Time` is opaque: Diff copies commit times and never compares them.
- Bytes and strings are modelled as `string`, one character per byte, with no UTF-8 decoding. `TrimSpace` trims ASCII whitespace only, not Unicode spaces such as U+0085 or U+00A0. A version that is not valid UTF-8 makes the default pattern fail to compile (`parser/parser.go:57-60`), because `QuoteMeta` copies bytes of 0x80 and above unchanged and RE2 rejects invalid UTF-8; the model has no such case, so `SectionParsers.DefaultFailsOnlyWhenAbsent` holds only for valid-UTF-8 versions.
- `sort.Slice`'s algorithm is replaced by an insertion sort. Under the total orders used here every correct sort gives the same result (`Notes.NotesFromEntryDeterministic`, `Entries.DiffDeterministic`).
- A user-supplied `RegexpFormat` goes through `fmt.Sprintf` and `regexp.Compile`, which are not modelled. The `engine` parameter stands for both plus `FindSubmatchIndex`.
- `SectionParsers.SectionParser.Section`: Go panics when a user pattern's ranges fall outside the document. The model returns `SliceOutOfRange` instead. With the default format this cannot happen (`SectionParsers.DefaultRanges`).
- `SectionParsers.SectionParser.SectionRange`: the contract states only the not-found error. The success and error cases are stated by `SectionParsers.MissingGroupAfterMatch`, `SectionParsers.RangesOfFirstGroups` and `SectionParsers.DefaultFailsOnlyWhenAbsent`.
- `io.ReadAll`'s reader is a parameter: the bytes read, or the read error.
- Date filtering is not modelled, because the doc comment of `Diff` mentions it but the code does not do it.
