# classy: class-signature extraction, modelled in Dafny

`classy` reads a tree of HTML files and reports the combinations of CSS
classes that occur together most often. The core of it is in
`extract/extract.go`. This model covers four steps of that core:

- **Normalising.** `classSet` turns one raw `class` attribute value into a
  canonical *signature*. It cuts out every `{{…}}` template placeholder,
  leaving one space in its place; an unclosed `{{` swallows the rest of the
  value. It then splits the value into white-space separated fields, sorts
  them bytewise, drops repeats and joins the result with single spaces.
- **Scanning.** `classSets` walks a parsed document in pre-order. Every
  element node with a `class` attribute emits the signature of its first
  such attribute. Other nodes emit nothing, but their children are still
  visited.
- **Aggregating.** `Exec` concatenates the signatures of all files, file
  after file. The first file that cannot be opened or parsed aborts the run
  with its error and no report.
- **Ranking.** `Exec` then counts each signature and keeps each distinct
  signature once. It orders them by ascending count and reports those with
  at least `names` spaces and at least `threshold` occurrences. Both bounds
  are inclusive. The defaults are `names` = 1 and `threshold` = 3.

Strings are sequences of Unicode code points. Go compares strings by their
UTF-8 bytes. UTF-8 preserves code-point order, so the model's
character-wise lexicographic `Less` is Go's `<` on valid UTF-8.
`strings.Fields` splits on Go's `unicode.IsSpace`, and `Text.IsSpace` lists
that same set.

The modules are:

| module | file | covers |
|---|---|---|
| `Wrappers` | `wrappers.dfy` | `Option` and `Result` |
| `Text` | `text.dfy` | the `strings` functions used: `Cut`, `Fields`, `Join`, `Count(_, " ")` |
| `Order` | `order.dfy` | `slices.Sort` and `slices.Compact` on strings |
| `Normalize` | `normalize.dfy` | `classSet` |
| `Scan` | `scan.dfy` | `classSets` and `classesInFile` over a parse tree |
| `Rank` | `rank.dfy` | lines 73–100 of `Exec` |
| `Extract` | `exec.dfy` | `Exec` from parsed files to report |
| `Samples` | `samples.dfy` | the normaliser on small literal values, and the default report for any two signatures |

`slices.SortFunc` at lines 87–89 compares counts only and is not a stable
sort, so the code does not guarantee any order among equal counts. The
model promises no more than that:

- `Rank.RankByCount` and `Rank.Ranking` guarantee only that counts never
  decrease.
- `Rank.RankTieBreak` and `Rank.RankingTieBreak` state separately that the
  model's own ordering, fed the bytewise-sorted list of lines 85–86, keeps
  equal counts in bytewise order. That is one order the Go sort may
  produce, not one it must produce.

## Model

| member | source | states |
|---|---|---|
| Text.IndexFrom | extract/extract.go:160 | the result is the first position at or after `k` where `sep` occurs, and it is None exactly when `sep` occurs nowhere from `k` on |
| Text.Cut | extract/extract.go:160-165 | found iff `sep` occurs; when found, `s` is `before + sep + after` with no earlier occurrence; when not found, `before` is `s` and `after` is empty |
| Text.CutAtFirst | extract/extract.go:160-165 | the first occurrence fully determines the result of `Cut` |
| Text.CutAfterPrefix | extract/extract.go:160-165 | when `x` never contains the first character of `sep`, `Cut(x + sep + rest, sep)` splits into `x` and `rest` |
| Text.CutBeforeAvoids | extract/extract.go:160 | the part before the first `sep` contains no `sep` |
| Text.OpenAfterPrefix | extract/extract.go:160-161 | a prefix with no `{{` that does not end in `{` does not move the first `{{`: it is found in `p + s` iff in `s`, and the part before it gains exactly `p` |
| Text.Fields | extract/extract.go:168 | every field is non-empty and free of white space |
| Text.FieldsSplit | extract/extract.go:168 | any white-space character separates fields: `Fields(a + [c] + b)` is `Fields(a) + Fields(b)`, so no field is lost, added, reordered or joined across it |
| Text.FieldsOfJoin | extract/extract.go:168-171 | `Fields(Join(ts)) == ts` for any list of non-empty, space-free tokens, so splitting undoes joining |
| Text.FieldsEmptyIffBlank | extract/extract.go:168 | a string has no fields exactly when it is all white space |
| Text.FieldsAvoid | extract/extract.go:166-168 | fields of a string without `sep` contain no `sep` |
| Text.JoinAvoidsOpen | extract/extract.go:171 | joining tokens that have no `{{` with single spaces creates no `{{` |
| Text.SpacesOfJoin | extract/extract.go:91 | the space count of a join of n ≥ 1 tokens is n − 1, and 0 for no tokens |
| Order.StrictTotalOrder | extract/extract.go:169 | the string order is irreflexive, asymmetric, total and transitive |
| Order.Insert | extract/extract.go:169 | inserting keeps the list sorted and adds exactly one copy of the element |
| Order.Sort | extract/extract.go:169 | the result is a sorted permutation of the input |
| Order.SortedUnique | extract/extract.go:169 | two sorted permutations of one list are equal, so any correct sort gives the same result |
| Order.SortOfSorted | extract/extract.go:169 | sorting an already sorted list changes nothing, which makes a signature's own fields come back unchanged from the sort |
| Order.StrictlySortedUnique | extract/extract.go:169-170 | two strictly sorted lists with the same elements are equal |
| Order.Compact | extract/extract.go:170 | the result has the same elements, no equal neighbours, the same first element and no more length, and it is strictly sorted when the input is sorted |
| Order.CompactOfStrictlySorted | extract/extract.go:170 | compacting a duplicate-free sorted list changes nothing, which makes a signature's own fields come back unchanged from the compaction |
| Normalize.StripPlaceholders | extract/extract.go:159-167 | the loop terminates; its result contains no `{{` and is no longer than the input; a value without `{{` is unchanged |
| Normalize.StripPrefix | extract/extract.go:159-167 | text in front of every placeholder is kept verbatim: for a prefix with no `{{` that does not end in `{`, stripping `p + s` gives `p` followed by `s` stripped |
| Normalize.StripStep | extract/extract.go:159-167 | one round of the loop: the text before the first `{{` is kept, the placeholder becomes one space, and stripping continues after the next `}}` |
| Normalize.ClosedPlaceholder | extract/extract.go:160-166 | a closed placeholder is replaced by one space: with no `{` in `x` and no `}` in `y`, `x{{y}}z` becomes `x`, one space, and `z` stripped in turn |
| Normalize.UnclosedPlaceholder | extract/extract.go:164-166 | an unclosed `{{` discards the rest of the value, leaving the part before it and one space |
| Normalize.CanonicalTokens | extract/extract.go:168-170 | the sorted, compacted tokens are strictly increasing, are exactly the raw fields as a set, and are tokens without `{{` |
| Normalize.ClassSet | extract/extract.go:158-172 | the result is a signature (the join of its own strictly sorted fields, with no `{{`) whose fields are, as a set, exactly the fields of the stripped value |
| Normalize.SameTokensSameSignature | extract/extract.go:168-171 | two values get the same signature iff their stripped values have the same set of fields, so order and repetition do not matter |
| Normalize.SignatureIsFixedPoint | extract/extract.go:158-172 | `ClassSet(r) == r` iff `r` is a signature |
| Normalize.ClassSetIdempotent | extract/extract.go:158-172 | normalising a signature again gives it back |
| Normalize.EmptySignature | extract/extract.go:168-171 | the signature is empty iff no field remains once placeholders are cut |
| Normalize.BlankValue | extract/extract.go:168-171 | the empty value, and any all-white-space value, gives the empty signature |
| Normalize.SignatureSpaces | extract/extract.go:91 | a signature of n ≥ 1 classes has n − 1 spaces, and the empty signature has none |
| Scan.FirstClass | extract/extract.go:142-147 | None iff no attribute has key exactly "class"; otherwise the value of the first such attribute |
| Scan.Own | extract/extract.go:141-148 | a node emits one signature, of its first class attribute, iff it is an element with a class attribute; otherwise it emits nothing |
| Scan.ClassSets | extract/extract.go:138-156 | everything the walk emits is a signature |
| Scan.Qualifying | extract/extract.go:141-148 | the kept nodes are exactly the elements of the list that have a class attribute |
| Scan.ClassSetsInPreOrder | extract/extract.go:138-156 | the walk emits exactly one signature per element with a class attribute, from its first class attribute, in pre-order |
| Scan.ForestClassSetsInPreOrder | extract/extract.go:149-151 | the same for a sibling list, children left to right |
| Scan.ScanFile | extract/extract.go:123-136 | a file that failed to open or parse yields its own error; otherwise it yields the signatures of its tree in pre-order |
| Rank.Collect | extract/extract.go:73-80 | succeeds iff every file succeeds; the error is that of the first failing file; on success the result is every file's signatures, file after file |
| Rank.Count | extract/extract.go:81-84 | the keys are exactly the signatures seen, and each count is the number of occurrences |
| Rank.Distinct | extract/extract.go:85-86 | the result is strictly sorted and holds exactly the signatures seen |
| Rank.InsertByCount | extract/extract.go:87-89 | inserting keeps counts non-decreasing and adds exactly one copy of the element |
| Rank.RankByCount | extract/extract.go:87-89 | the result is a permutation of the input with non-decreasing counts |
| Rank.RankTieBreak | extract/extract.go:85-89 | fed the bytewise-sorted distinct list, the model's ordering breaks count ties bytewise |
| Rank.Select | extract/extract.go:90-100 | every reported entry is a ranked signature with its own count and passes both inclusive thresholds |
| Rank.SelectComplete | extract/extract.go:90-100 | every ranked signature that passes both thresholds is reported with its count |
| Rank.SelectPositions | extract/extract.go:90-100 | the report keeps ranking order: its entries sit at strictly increasing positions of the ranking |
| Rank.RankedFacts | extract/extract.go:81-89 | the ranked list holds each signature seen exactly once, with non-decreasing counts |
| Rank.Ranking | extract/extract.go:81-100 | the report holds exactly the signatures seen with at least `names` spaces and at least `threshold` occurrences; each appears once with its number of occurrences (at least 1); counts never decrease |
| Rank.RankingSingle | extract/extract.go:90-100 | when exactly one signature passes both thresholds, the report is that signature alone with its count |
| Rank.RankingTieBreak | extract/extract.go:85-100 | in the model's admissible order, equal counts appear in bytewise order |
| Rank.Report | extract/extract.go:73-100 | fails iff some file failed, with the first failing file's error; otherwise the report is the ranking of all files' signatures |
| Extract.ScanAll | extract/extract.go:74-78 | scanning keeps one result per file; a file fails iff its scan fails, with the same error |
| Extract.SignatureListAt | extract/extract.go:138-156 | the reference list has, position by position, the signature of each emitting node |
| Extract.GatheredIsEmitted | extract/extract.go:73-80 | the gathered signatures of the scanned files equal the reference list of all class-bearing elements, document after document, each in pre-order |
| Extract.EmittedAreSignatures | extract/extract.go:138-172 | everything emitted is a signature |
| Extract.Exec | extract/extract.go:68-101 | fails iff some file fails, with the first error and no report; otherwise it ranks the signatures of all class-bearing elements in all files; every reported signature is canonical, and with `names` ≥ 1 it has more than `names` classes |
| Samples.ReorderedDuplicates | extract/extract.go:158-172 | "b a a" and "a b" both normalise to "a b" |
| Samples.PlaceholdersAround | extract/extract.go:159-168 | two closed placeholders around a text `w` without `{` strip to `w` padded by one space on each side, and leave exactly the fields of `w` |
| Samples.TwoPlaceholders | extract/extract.go:158-172 | "{{x}}b a{{y}}" normalises to "a b" |
| Samples.EmptyValue | extract/extract.go:158-172 | the empty value normalises to "" |
| Samples.DefaultReport | extract/extract.go:33-34 | with the default flags, for any value `a` with at least one space and any `c` with none, the values `a c a a` report `a` alone, with count 3 |

## Left out

- Flag and environment parsing (`ParseArgs`, `flagx`, the usage text), lines 19-66: I/O plumbing with no semantics beyond the two defaults. `Rank.DefaultNames` and `Rank.DefaultThreshold` give those defaults.
- `getFiles` (lines 104-121): walking the directory, skipping hidden directories and picking `.html`/`.htm` files is file-system I/O. `Extract.Exec` takes the files it found, in walk order. An error from the walk itself is not modelled.
- Opening and parsing a file (`os.Open`, `html.Parse`): each file is given as its parse tree or as the error it produced. The tree keeps only node kinds, attributes and children. Tag names and text are not needed.
- Printing the report (`%2d\t%q`): the model returns the list of (count, signature) entries that would be printed.
- `main.go` and exit codes: process plumbing.
- Rank.RankByCount: does not pin down the order of equal counts, because `slices.SortFunc` is unstable and the source promises only non-decreasing counts. The model's concrete choice is described by `Rank.RankTieBreak`.
- Invalid UTF-8: strings are modelled as code points, so byte sequences that are not valid UTF-8 are outside the model.
- Rank.Count: counts are unbounded integers. Go's `int` cannot overflow on any input that fits in memory.
