# zipf in Dafny

zipf writes a zip archive of the current directory. The user gives the
archive's path, some include patterns and some exclude patterns (`-x`). Two
pieces of the program are modelled here and proved against specifications.

**The pattern matcher (`src/exclude.rs`).**
- A pattern is split on `/` into segments.
- The segments `*`, `.` and the empty one are wildcards.
- Any other segment is split on `.` into tokens, where `*` is a wildcard token.
- One pattern matched against an entry name gives `Exact`, `Partial(rest of the pattern)` or `No`.
- A list of patterns gives a collection verdict and the residual patterns that apply one level down.

**The directory walker (`src/main.rs`).**
- It skips `.git` and `.gitignore`.
- It admits a directory unless its include verdict is `No` or its exclude verdict is `Exact`. It then recurses with the residual patterns.
- It admits a file only when the include verdict is `Exact` and the exclude verdict is not.
- It appends admitted entries to the archive in pre-order, under names built by `file_name`.
- `main` adds the archive's own path to the exclude patterns.

Files:
- `strings.dfy` (module `Strings`): the Rust string operations the code relies on.
  - `split` with a one-character separator, which keeps empty pieces;
  - `matches(c).count()`;
  - `split(c).last()`;
  - `intersperse` followed by `collect`.
- `exclude.dfy` (module `Exclude`): the pattern matcher.
  - Parsing and matching are functions.
  - `recurse_collection` is a method whose loop is proved against the function `Collection`.
- `zipf.dfy` (module `Zipf`): the walker and the program's entry point.
  - The file system is an in-memory tree. A listing is `Listed(entries)` or `ListError`; an entry is `File(name)`, `Dir(name, listing)` or `Unreadable`.
  - The archive writer is the class `ZipSink`, an append-only list of `(name, isDir)` records.
  - `Crawler` and `CrawlEntry` are the imperative walker. They are proved to append exactly the records of the functions `Crawl`/`CrawlEntries`/`Visit`.
- `crawler_properties.dfy` (module `CrawlerProperties`): what the walk guarantees, proved about those functions.
- `scenarios.dfy` (module `Scenarios`): worked examples of the matcher and the walker.

In the source, the `continue` statements of the walker's loop skip to the next entry. In the model, the loop body is the method `CrawlEntry`, so each `continue` becomes a `return` from it. Its `return` on an unreadable entry ends the whole listing, as in the source.

## Model

| member | source | states |
|---|---|---|
| Strings.CountChar | src/exclude.rs:46 | `matches(c).count()`, the number of `c`s in the string; `Strings.Split` states that a split has exactly one more piece than that |
| Strings.Split | src/exclude.rs:46-51 | `split(c)` gives one more piece than there are `c`s in the string, and no piece contains `c`; so the count test on line 46 compares the number of zipped pieces |
| Strings.Join | src/main.rs:13 | `intersperse(sep).collect()`, the pieces with the separator between them; `Strings.JoinSplit` and `Strings.SplitJoin` state that it inverts `Split` in both directions |
| Strings.JoinSplit | src/main.rs:13 | joining the pieces of a split with the separator gives back the string |
| Strings.SplitJoin | src/main.rs:13 | splitting a join of at least one separator-free piece gives back the pieces |
| Strings.SplitTwo | src/exclude.rs:46-51 | a name with one `.` between two dot-free parts splits into exactly those two parts |
| Strings.Last | src/exclude.rs:88 | `split(c).last()`, the piece after the last `c`; `Strings.LastPiece` states its meaning |
| Strings.LastPiece | src/exclude.rs:88 | `split(c).last()` contains no `c`, is the whole string when there is no `c`, and otherwise is the suffix after some `c` of the string, which is then the last `c`; applying it twice changes nothing |
| Exclude.PathComponentFromString | src/exclude.rs:10-15 | the token parse: `*` is the wildcard token, anything else a literal; `Exclude.TokenMatches` states what the parse means for matching |
| Exclude.PathComponentMatches | src/exclude.rs:17-22 | token matching; `Exclude.TokenMatches` states it: a token matches `f` iff it is `*` or equals `f` |
| Exclude.ComponentFromString | src/exclude.rs:32-40 | the segment parse; `Exclude.ComponentParse` states its result for every text and `Exclude.WildcardPatterns` its wildcard cases |
| Exclude.ComponentMatches | src/exclude.rs:42-55 | segment matching; `Exclude.ComponentMatchesPairwise` states it token by token and `Exclude.SegmentMatchesGlob` ties parse plus match to a glob on the texts |
| Exclude.Slice | src/exclude.rs:77-80 | a pattern without its first segment (`WILDCARD`, line 69, is the one-segment wildcard pattern); `Exclude.ResidualsShrink` and `Exclude.RecurseOnText` state that a residual is one segment shorter and is the parse of the text after the first `/` |
| Exclude.Recurse | src/exclude.rs:86-100 | one pattern against one name; `Exclude.RecurseOnText`, `Exclude.RecurseUsesLastPiece` and `Exclude.PatternFollowsItsPath` state its verdicts |
| Exclude.Collection | src/exclude.rs:110-134 | the collection verdict, the specification of `Exclude.RecurseCollection`; `Exclude.CollectionNo`, `Exclude.CollectionExact` and `Exclude.ResidualsInOrder` state it member by member |
| Exclude.TokenMatches | src/exclude.rs:10-22 | a parsed token matches `f` iff the token text is `*` or equals `f` |
| Exclude.ComponentParse | src/exclude.rs:32-40 | a segment parses to the wildcard iff it is `*`, `.` or empty; otherwise to one token per `.`-piece, in order, `*` pieces giving wildcard tokens |
| Exclude.ItemFromString | src/exclude.rs:72-75 | a pattern has one segment per `/`-piece (count of `/` plus one), so it is never empty |
| Exclude.ItemParse | src/exclude.rs:72-75 | segment `i` of a pattern is the parse of its `i`-th `/`-piece, and those pieces join back to the pattern text |
| Exclude.WildcardPatterns | src/exclude.rs:33-34 | the patterns `*`, `.` and the empty pattern parse to the one-segment wildcard pattern |
| Exclude.ZipAll | src/exclude.rs:51 | `zip(..).all(..)`, pairwise agreement up to the shorter sequence; `Exclude.ZipAllPairwise` states it for equal lengths in both directions |
| Exclude.ZipAllPairwise | src/exclude.rs:51 | `zip(..).all(..)` over equal-length sequences holds iff every pair matches |
| Exclude.ComponentMatchesPairwise | src/exclude.rs:42-55 | a tokenized segment matches a name iff the name has as many `.`-pieces as there are tokens and each piece matches its token |
| Exclude.SegmentMatchesGlob | src/exclude.rs:32-55 | parsing a segment and matching it agrees, for all texts and names, with a direct glob on the texts (`SegmentGlob`) |
| Exclude.SegmentMatchesItself | src/exclude.rs:32-55 | every segment text matches itself as a name |
| Exclude.DotCountExample | src/exclude.rs:46-49 | `a.b` does not match `a.b.c` |
| Exclude.WildcardTokenExample | src/exclude.rs:42-55 | `a.*` matches `a.txt` but not `a` |
| Exclude.RecurseUsesLastPiece | src/exclude.rs:88 | the verdict of a pattern on a name equals its verdict on `Last(name, '/')`, which `Strings.LastPiece` states is the part of the name after its last `/` |
| Exclude.RecurseOnText | src/exclude.rs:77-100 | for a pattern text, against the part of the name after its last `/`: `No` iff the first `/`-piece of the pattern fails to match it; `Exact` iff it matches and the pattern has one piece; a `Partial` rest is the parse of the pattern after its first `/`, one segment shorter |
| Exclude.RecurseCollection | src/exclude.rs:110-134 | the loop with its `exact` flag and accumulator returns exactly the collection verdict `Collection(file, items)` |
| Exclude.CollectionNo | src/exclude.rs:123-125 | the collection verdict is `No` iff every member says `No`; the empty list always gives `No` |
| Exclude.CollectionExact | src/exclude.rs:113-133 | `Exact` iff some member says `Exact`; `Partial` iff some member says `Partial` and none says `Exact` |
| Exclude.ResidualsInOrder | src/exclude.rs:113-122 | the residual list has one entry per member that does not say `No`, in input order: the wildcard for `Exact`, the shortened pattern for `Partial` |
| Exclude.ResidualsShrink | src/exclude.rs:115-119 | each residual is the wildcard pattern or one segment shorter than the member it came from |
| Exclude.WildcardAbsorbs | src/exclude.rs:115-128 | a list holding the wildcard pattern gives `Exact` for every name |
| Exclude.ExactCarriesWildcard | src/exclude.rs:115-117 | an `Exact` verdict carries the wildcard pattern among its residuals |
| Exclude.PartialCarriesRest | src/exclude.rs:119 | a `Partial` member makes the verdict non-`No` and its shortened pattern is among the residuals |
| Exclude.PatternFollowsItsPath | src/exclude.rs:86-100 | the pattern written as a path `P` is `Exact` on `P[0]` when `P` has one component, and otherwise carries the pattern of the rest of `P` |
| Zipf.ZipSink.constructor | src/main.rs:78 | a new archive holds no records |
| Zipf.ZipSink.AddDirectory | src/main.rs:47 | appends one directory record and changes nothing else |
| Zipf.ZipSink.StartFile | src/main.rs:63 | appends one file record and changes nothing else |
| Zipf.Ignored | src/main.rs:32-34 | the two skipped names; `CrawlerProperties.CrawlBelow` and `CrawlerProperties.PrunedNameEmitsNothing` state that nothing at or below them is emitted |
| Zipf.FileName | src/main.rs:12-14 | the stored name; `CrawlerProperties.StoredName` states that `./q` is stored as `q` joined with `/` and splits back into `q` |
| Zipf.Crawl | src/main.rs:16-71 | the records of a walk, the specification of `Zipf.Crawler`; the lemmas of `CrawlerProperties` state placement, admission, pruning and order |
| Zipf.CrawlEntries | src/main.rs:24-69 | the records of a listing; `CrawlerProperties.UnreadableAbandonsRest` and `CrawlerProperties.OnlyReadablePrefix` state its handling of unreadable entries |
| Zipf.Visit | src/main.rs:32-69 | the records of one entry, the specification of `Zipf.CrawlEntry`; `CrawlerProperties.FileEmittedIff` and `CrawlerProperties.DirEmittedIff` state its admission rule in both directions |
| Zipf.WithoutCurDir | src/main.rs:13 | keeps only components other than `.`, each taken from the path |
| Zipf.Crawler | src/main.rs:16-71 | walking a directory appends to the archive exactly the records of `Crawl` for its listing, after whatever it held |
| Zipf.CrawlEntry | src/main.rs:32-69 | handling one readable entry appends exactly the records of `Visit` for it |
| CrawlerProperties.WithoutCurDirKeepsNames | src/main.rs:13 | a path with no `.` component is stored with all its components |
| CrawlerProperties.WithoutCurDirAppend | src/main.rs:13 | dropping `.` components distributes over concatenation, so every other component is kept, in order |
| Zipf.Items | src/main.rs:75-76 | `.map(Item::from_string).collect()`, each pattern string parsed in order; `CrawlerProperties.ItemsAppend` and `CrawlerProperties.ExcludeListShape` state its properties |
| Zipf.IncludeItems | src/main.rs:75 | the include patterns parsed in order; `Exclude.WildcardPatterns` and `CrawlerProperties.WildcardIncludesEverything` state what the pattern `*` among them does |
| CrawlerProperties.ItemsAppend | src/main.rs:75-76 | parsing a concatenation of pattern lists parses each list in turn |
| Zipf.ExcludeItemsAsWritten | src/main.rs:76 | the program's exclude list; `CrawlerProperties.ExcludeListShape` states its order |
| CrawlerProperties.ExcludeListShape | src/main.rs:76 | the program's exclude list is the user's patterns, parsed in order, followed by the output path parsed verbatim; the corrected list differs only in that last pattern, the output path with its `.` and empty components dropped |
| Zipf.RunAsWritten | src/main.rs:73-81 | what the program archives: the walk of `.` with the include list and the as-written exclude list; `Zipf.Archive` is proved to produce it |
| CrawlerProperties.NamedKeepsNames | src/main.rs:76 | dropping `.` and empty components leaves a path without them unchanged |
| CrawlerProperties.NamedAppend | src/main.rs:76 | dropping `.` and empty components distributes over concatenation, so every other component is kept, in order |
| Zipf.ExcludeItemsCorrected | src/main.rs:76 | the corrected exclude list; `CrawlerProperties.ExcludeListShape` states that it is the user's patterns followed by the normalised output path |
| Zipf.RunCorrected | src/main.rs:76 | the same walk with the corrected exclude list; `CrawlerProperties.ArchiveExcludesItself` states that it never archives the output path |
| Zipf.Named | src/main.rs:76 | the output components kept for the self-exclusion pattern are taken from the path and are neither `.` nor empty |
| Zipf.Archive | src/main.rs:73-81 | builds the include list and the exclude list as the program does (the output path parsed verbatim) and returns a new writer holding exactly the records of `RunAsWritten` for the tree under `.` |
| CrawlerProperties.CrawlBelow | src/main.rs:32-34 | every emitted entry lies below the walked directory, and none of its components below it is `.git` or `.gitignore` |
| CrawlerProperties.VisitBelow | src/main.rs:45-49 | what one entry contributes lies at or below it; the only record at its own level is its own, of its own kind |
| CrawlerProperties.Readable | src/main.rs:24-30 | the entries before the first unreadable one: a prefix of the listing with no unreadable entry, followed by one or by the end |
| CrawlerProperties.FileEmittedIff | src/main.rs:55-68 | a file is emitted iff it comes before any unreadable entry, is not ignored, its include verdict is `Exact` and its exclude verdict is not `Exact` |
| CrawlerProperties.DirEmittedIff | src/main.rs:37-52 | a directory is emitted iff it comes before any unreadable entry, is not ignored, its include verdict is not `No` and its exclude verdict is not `Exact` |
| CrawlerProperties.PrunedNameEmitsNothing | src/main.rs:32-52 | nothing at or below an entry that is ignored, matches no include pattern or matches an exclude pattern exactly is emitted |
| CrawlerProperties.UnreadableAbandonsRest | src/main.rs:25-30 | whatever follows an unreadable entry in a listing contributes nothing |
| CrawlerProperties.OnlyReadablePrefix | src/main.rs:17-30 | only the readable prefix of a listing matters, and walking a directory that cannot be listed adds nothing below it |
| CrawlerProperties.UnlistableDirectoryIsRecorded | src/main.rs:45-47 | an admitted directory that cannot be listed still gets its own record, because the record is written before the directory is read |
| CrawlerProperties.ExcludesOnlyPrune | src/main.rs:40-60 | on the same tree and include patterns, every entry emitted with some exclude patterns is also emitted with none |
| CrawlerProperties.UnmatchedExcludesAreInert | src/main.rs:40-43 | exclude patterns that match none of a listing's names act as no exclude patterns |
| CrawlerProperties.WildcardIncludesEverything | src/main.rs:39-49 | with the wildcard among the include patterns and no exclude patterns, the walk emits the whole tree in pre-order (`Everything`), skipping only `.git`/`.gitignore` |
| CrawlerProperties.ExactDirectoryIncludesAll | src/main.rs:39-49 | a directory matched `Exact` by the include patterns and by no exclude pattern is archived with everything below it |
| CrawlerProperties.CrawlPreOrder | src/main.rs:45-49 | every emitted entry more than one level down is preceded by the record of its parent directory |
| CrawlerProperties.PatternExcludesItsPath | src/main.rs:40-41 | with the pattern of a path `P` among the exclude patterns, nothing at or below `P` is emitted, whatever the include patterns |
| CrawlerProperties.StoredName | src/main.rs:12-14 | the entry `./q` is stored as the components of `q` joined with `/`, and that name splits back into `q` |
| CrawlerProperties.ArchiveExcludesItself | src/main.rs:76 | with the corrected exclude patterns (`RunCorrected`), nothing at or below the archive's own path is emitted |
| CrawlerProperties.PlainOutputExcludesItself | src/main.rs:76 | the program as written (`RunAsWritten`) emits nothing at or below the archive's path when that path has no `.` and no empty component |
| CrawlerProperties.CorrectionAgreesOnPlainOutput | src/main.rs:76 | for an output path without `.` or empty components, the corrected exclude patterns are the ones the program builds |
| CrawlerProperties.DotSlashPatternIsPartial | src/main.rs:76 | the output path `./n`, parsed as a pattern, matches every top-level name only partially |
| CrawlerProperties.DotSlashOutputIncludesItself | src/main.rs:76 | as written, output `./n` and include `*` put the archive file `n` into the archive |
| CrawlerProperties.DotSlashOutputParts | src/main.rs:76 | the named components of `./n` are just `n` |
| CrawlerProperties.DotSlashOutputExcludedWhenCorrected | src/main.rs:76 | with the corrected exclude patterns, the same run leaves `n` out |
| Scenarios.TwoLevelWildcard | src/exclude.rs:86-100 | the pattern `*` then `/` then `*` matches any name partially, leaving the wildcard, which matches any name below exactly |
| Scenarios.TokenWildcard | src/exclude.rs:42-55 | `a.*` matches `a.` plus any one token, but neither `a` nor a three-token name |
| Scenarios.DottedPatternMisses | src/exclude.rs:42-55 | `x.y` misses a name whose first token differs, and every name without a `.` |
| Scenarios.OutputIsPlain | src/main.rs:76 | an output path without `/`, other than `.` and the empty path, is its own self-exclusion pattern |
| Scenarios.ExcludeIsAbsolute | src/main.rs:40-41 | an exclude pattern naming an entry removes it and its whole subtree, whatever the include patterns |
| Scenarios.ExcludeNarrows | src/main.rs:40-49 | with `*` included and `n/m` excluded, the directory `n` is archived but nothing at or below `n/m` is |
| Scenarios.IncludeAllScenario | src/main.rs:16-71 | for two files `a` and `b` and a directory `s` holding `c`, the program as written (`RunAsWritten`) with include `*` archives `a`, `b`, `s`, `s/c`, in that order, whenever the output path, parsed verbatim, matches none of `a`, `b`, `s` |
| Scenarios.TokenPatternScenario | src/main.rs:16-71 | on the same tree with files `a.t` and `b.t`, the program as written (`RunAsWritten`) with include `*.t` and exclude `b.t` archives only `a.t`, whenever the output path, parsed verbatim, does not match `a.t`; the directory `s` is neither archived nor entered |

## Left out
- The zip container is not modelled: compression, file contents, and the `write_all`/`std::fs::read`, `File::create` and `zip.finish()` calls. The archive is the list of `(name, isDir)` records the walker hands the writer.
- The file system is a given tree, not `read_dir`. A listing failure is `ListError` and an entry-read failure is `Unreadable`. Listing order is the order of the sequence.
- The `expect`/`unwrap` panics on metadata, on writer calls and on reading a file's contents are not modelled. Every entry is a file or a directory, and every write succeeds.
- Logging with `println!`/`eprintln!` is not modelled.
- `Cow` borrowing is not modelled. A residual pattern is a plain sequence, and sharing it has no observable effect.
- `to_string_lossy` is not modelled: names are strings, with no UTF-8 conversion.
- `src/args.rs` (command-line parsing) is not part of this model. The command line is the datatype `Zipf.Args`.
- Zipf.ExcludeItemsCorrected: the corrected self-exclusion pattern drops only `.` and empty components. It does not resolve `..` or absolute paths: an absolute output path inside the tree, or one reached through `..`, is not excluded by it.
- The archive exists from line 77 onwards, before the walk starts. To show the archive including itself, the tree passed to `RunAsWritten` must therefore list the archive file.

## Findings

| source | as written | input that shows it | evidently intended | confidence | as-written member | corrected member |
|---|---|---|---|---|---|---|
| src/main.rs:76 | the output path is parsed verbatim as an exclude pattern; a leading `./` parses to a wildcard segment, so the pattern matches `out.zip` one level below every top-level entry and only partially at the top level | output `./out.zip`, include `*`, the working directory holding `out.zip`: the file `out.zip` is emitted into the archive | the archive never contains itself, so the pattern should name the archive's own path relative to `.` | medium, not executed | CrawlerProperties.DotSlashOutputIncludesItself | CrawlerProperties.ArchiveExcludesItself |

The model as written is `Zipf.ExcludeItemsAsWritten` and `Zipf.RunAsWritten`. `Zipf.Archive`, the model of `main`, produces the records of `Zipf.RunAsWritten`. The corrected construction, `Zipf.ExcludeItemsCorrected` (used by `Zipf.RunCorrected`), drops the `.` and empty components of the output path before parsing it. `CrawlerProperties.CorrectionAgreesOnPlainOutput` shows that the two constructions are identical for output paths without such components. `CrawlerProperties.PlainOutputExcludesItself` concludes that, for such paths, the program as written does keep its archive out.
