# clutter tag engine, modelled in Dafny

`clutter` finds tags written in source code between brackets such as
`[# ./name @key=value #]`. It indexes the tags and lets a user resolve one
tag to the other places that mention it. This project models the pure core
of that engine in Dafny and proves what it promises:

| module | file | models |
|---|---|---|
| `Wrappers` | wrappers.dfy | `Option` and `Result`: Go's `(value, error)` pairs and nil pointers |
| `Strs` | strs.dfy | the parts of `strings` and `strconv` the engine uses: trimming, splitting and joining, `%q` quoting of ASCII text, byte-order comparison, decimal digits |
| `Attributes` | attrs.dfy | `AttrToString`, the inverse split at the first `=`, and `AttrsStruct.Has` (pkg/clutter/clutterindex/attrs.go, plus the identical internal/pkg/index/attrs.go) |
| `Locations` | locations.dfy | `Loc` and `RawElement`: `Less`, `Contains`, `String` and `ParseLocString` (internal/pkg/scanner/loc.go, and element.go, which repeats the same definitions) |
| `StrMatcher` | strmatcher.dfy | the exact, glob and regexp matchers, `All`, `Any` and `NewMatchers` (pkg/strmatcher/strmatcher.go) |
| `Entries` | entry.dfy | the index `Entry`: `IsSearch`, the search `Matcher`, `IsReferredBy`, `AttrsWithLoc`, and the record form made by `marshal` and read by `unmarshal` |
| `Parser` | parser.dfy | `ParseElement`, which runs the pre/attr/post state machine over the tokens of one tag, and `ParseElements` |
| `ParserVectors` | parser_vectors.dfy | the cases of internal/pkg/parser/parser_test.go, each proved for every tokeniser that splits the text the way `text/scanner` does |
| `Index` | index.dfy | the sorted index, `Add`, `Size` and `Slice`, the text the writers produce, and `ReadFile`'s line loop |
| `IndexFilter` | index_filter.dfy | `Filter` and `ForEach` over an index, with `ErrStop` (internal/pkg/index/filter.go) |
| `Sources` | source.dfy | pull sources (`SliceSource`, `FileSource`), `Filter`, `ForEach` and `NewEntriesFilter` (pkg/clutter/clutterindex/filter.go) |
| `Resolver` | resolver.dfy | `resolve` and its list, next, previous, first, last and cycle modes |
| `Linter` | linter.dfy | rule validation, `NewLinter`, `Rule`, `LintRule`, `Lint` and `entVars` |
| `Scanner` | scan.dfy | the stripping of bracket matches, element locations, and the `%stop`/`%cont`/`%stop!` pragma machine of `ScanRawReader`, `ScanReader` and `ScanFile` |
| `ZLog` | zlog.dfy | log level names, parsing and reportability, and `toPairs` |

The engines the core calls but does not define are parameters:
- glob and regular-expression matching (`StrMatcher.Oracle`);
- `text/scanner` tokenisation, `strconv.Unquote` and `filepath.Dir` (`Parser.Syntax`);
- CSV encoding of a record's fields (`Entries.Codec`);
- expression evaluation, shell commands and the path compilers of the linter (`Linter.Compilers`).

Every property about these engines is stated for whatever they do.

Go closures that keep state between calls are modelled as folds with explicit state. The resolver's `ForEach` callback is `Resolver.Walk`, and the scanner's loop is `Scanner.Run`. A pull source is modelled as the finite list of answers it gives (`Sources.Pull`).

The resolver imports an `index.Entry` whose definition is not part of this model. It is modelled by the `Entry` of pkg/clutter/clutterindex/entry.go, whose API it uses. The two index snapshots share one model:
- their sort order and written text are the same;
- where their readers differ, the header check (`Index.MarkerCheck`) and the line numbering of errors (`Sources.Numbering`) are parameters.

## Model

| member | source | states |
|---|---|---|
| Attributes.AttrToString | pkg/clutter/clutterindex/attrs.go:16-22 | an empty value renders as the key alone; otherwise the text is the key, `=`, and the value; the key always leads |
| Attributes.SplitAttr | pkg/clutter/clutterindex/entry.go:204-210 | a field splits into a key without `=` and a value; a field without `=` is all key; otherwise key, `=` and value give the field back |
| Attributes.SplitAttrToString | pkg/clutter/clutterindex/entry.go:204-210 | splitting `AttrToString(k, v)` at its first `=` gives back (k, v) whenever k has no `=` |
| Attributes.HasOfToStruct | pkg/clutter/clutterindex/attrs.go:12-27 | `Has(k)` on the struct view holds exactly when k is a key of the map, even when its value is empty |
| StrMatcher.CompileExactMatcher | pkg/strmatcher/strmatcher.go:62-64 | never fails, and accepts exactly the option text |
| StrMatcher.CompileGlobMatcher | pkg/strmatcher/strmatcher.go:66-76 | never fails; accepts what the glob engine accepts for the text split at `/`, with a text ending in `/` treated as a directory |
| StrMatcher.CompileRegexpMatcher | pkg/strmatcher/strmatcher.go:78-85 | succeeds exactly when the pattern compiles, and then accepts what the regexp accepts; otherwise reports the pattern |
| StrMatcher.All | pkg/strmatcher/strmatcher.go:24-32 | true exactly when every matcher accepts, so true for none |
| StrMatcher.Any | pkg/strmatcher/strmatcher.go:34-42 | true exactly when some matcher accepts, so false for none |
| StrMatcher.NewMatchers | pkg/strmatcher/strmatcher.go:46-58 | one matcher per pattern, in order; otherwise the error names the first pattern that fails, with its index and cause; fails exactly when some pattern fails |
| StrMatcher.NewExactMatchers | pkg/strmatcher/strmatcher.go:89-92 | as many matchers as options, the i-th accepting exactly the i-th option |
| StrMatcher.GlobMatchersNeverFail | pkg/strmatcher/strmatcher.go:94-96 | building glob matchers never fails |
| Entries.IsSearch | pkg/clutter/clutterindex/entry.go:20-23 | an entry is a search exactly when it has a "search" key; the pattern type is that key's value |
| Entries.PatternKind | pkg/clutter/clutterindex/entry.go:30-39 | "exact", "regexp" and "glob", and only they, name a pattern kind |
| Entries.Matcher | pkg/clutter/clutterindex/entry.go:25-62 | fails with an unknown pattern type unless the search value names a kind; an empty name compiles to no name test; one matcher per key other than "search"; succeeds exactly when the name and every such attribute value compile |
| Entries.CompileAttrs | pkg/clutter/clutterindex/entry.go:50-62 | a matcher for exactly the given keys, each compiled from its value; an error names a key whose value failed, with the value and cause |
| Entries.AttrsWithLoc | pkg/clutter/clutterindex/entry.go:130-139 | the entry's attributes with "loc" set to the printed location, and no other key changed |
| Entries.AcceptsMeaning | pkg/clutter/clutterindex/entry.go:64-92 | the compiled matcher accepts a candidate exactly when the candidate is not a search, its name passes the name pattern (if any), and every non-search key is present in its attributes-with-loc with a value the key's pattern accepts |
| Entries.SearchNeverAcceptsSearch | pkg/clutter/clutterindex/entry.go:64-67 | a search entry is never accepted, whatever its name and attributes |
| Entries.ExactSearchMeaning | pkg/clutter/clutterindex/entry.go:25-92 | an exact search always compiles, and accepts a non-search candidate exactly when the names agree (or the pattern name is empty) and every pattern attribute is present with the same value |
| Entries.PlainEntryHasNoMatcher | pkg/clutter/clutterindex/entry.go:20-39 | an entry without "search" has an empty pattern type, which is an error |
| Entries.IsReferredByAdmits | pkg/clutter/clutterindex/entry.go:95-126 | with no scope of its own, an entry is referred to by an unscoped tag or by a scope admitting its path; with a scope, that scope must admit the other's scope, or the other's path when it has none; a scope ending in `/` admits by prefix and any other scope only itself |
| Entries.IsReferredByReflexive | pkg/clutter/clutterindex/entry.go:95-126 | every entry is referred to by itself |
| Entries.IsReferredByNotSymmetric | pkg/clutter/clutterindex/entry.go:114-125 | referral is not symmetric: scope `a/` is referred to by scope `a/b/`, but not the other way round |
| Entries.IsReferredByExamples | pkg/clutter/clutterindex/entry.go:96-111 | an unscoped entry under `a/` is referred to by scope `a/`, one elsewhere is not, and an exact file scope matches that file |
| Entries.RecordKeys | pkg/clutter/clutterindex/entry.go:150-166 | the keys written are the attribute keys without an empty scope, each once; a non-empty scope comes first and the rest ascend |
| Entries.MarshalFields | pkg/clutter/clutterindex/entry.go:143-176 | the fields are the name, the printed location, then one `AttrToString` field per written key, in that order |
| Entries.FieldsToAttrsKeys | pkg/clutter/clutterindex/entry.go:201-211 | the attributes read from fields have exactly the keys the fields split to |
| Entries.FieldsToAttrsLastWins | pkg/clutter/clutterindex/entry.go:201-211 | a key's value is the one from its last field |
| Entries.UnmarshalFields | pkg/clutter/clutterindex/entry.go:187-211 | fewer than two fields is an invalid record; a bad location is reported as such; otherwise the name is the first field, the location is parsed from the second, and the rest become attributes |
| Entries.DropEmptyScope | pkg/clutter/clutterindex/entry.go:163-166 | the entry with an empty scope removed and everything else kept |
| Entries.MarshalRoundTrip | pkg/clutter/clutterindex/entry.go:143-211 | reading back the fields of an entry gives the entry, minus an empty scope, when its location prints and parses and no key holds `=` |
| Entries.Unmarshal | pkg/clutter/clutterindex/entry.go:178-185 | a record the CSV reader rejects is reported as malformed; otherwise its fields are read |
| Entries.UnmarshalMarshal | pkg/clutter/clutterindex/entry.go:143-214 | unmarshal of marshal gives the entry back, minus an empty scope, for any CSV codec that reads back what it writes |
| Locations.LessIgnoresEndColumn | internal/pkg/scanner/element.go:21-32 | ordering compares path, line and start column only, and is irreflexive |
| Locations.LessIsStrictWeakOrder | internal/pkg/scanner/loc.go:16-27 | `Less` is irreflexive, transitive and asymmetric, and two locations are unordered exactly when they share path, line and start |
| Locations.ContainsIsPreorder | internal/pkg/scanner/loc.go:29-34 | every location contains itself, and containment is transitive |
| Locations.MatchLoc | internal/pkg/scanner/loc.go:40 | a match of the anchored pattern splits the text into a non-empty path, digits, digits and an optional `-digits` end |
| Locations.MatchLocComplete | internal/pkg/scanner/loc.go:40 | every text of that shape matches, with exactly those parts |
| Locations.AddOne64 | internal/pkg/scanner/loc.go:70 | adding one to a Go int stays in 64 bits and is exact below the maximum |
| Locations.ParseLocString | internal/pkg/scanner/loc.go:42-74 | a parsed location has a non-empty path without newline, numbers in range, and an end after the start (or the wrapped end of the largest start); text outside the pattern is invalid |
| Locations.StringIsJoined | internal/pkg/scanner/loc.go:36-38 | a location prints as `path:line.start-end` |
| Locations.RoundTrip | internal/pkg/scanner/loc.go:36-74 | parsing a printed location gives it back when the path is non-empty without newline, the numbers are non-negative and the end follows the start |
| Locations.ParsePrintsBack | internal/pkg/scanner/loc.go:36-74 | printing a parsed location gives the text back when its numbers carry no leading zeros and its end is explicit |
| Locations.ShortForm | internal/pkg/scanner/element.go:67-69 | a text without `-end` parses with the end one column after the start |
| Locations.RejectsEndNotAfterStart | internal/pkg/scanner/element.go:59-66 | an explicit end at or before the start is an invalid end column |
| Locations.RejectsUnanchored | internal/pkg/scanner/loc.go:40-46 | a text with no colon, or with a newline, is invalid |
| Parser.SearchType | internal/pkg/parser/parser.go:63-76 | "" and "exact" mean exact, "g" and "gl" glob, "e" and "re" regexp, and nothing else is a search type |
| Parser.DirScope | internal/pkg/parser/parser.go:55-62 | a directory of "" or "." gives no scope; any other gives the directory with one trailing `/` |
| Parser.AddAttr | internal/pkg/parser/parser.go:43-81 | a bad key name or a key already set is an error; otherwise the key is added and nothing else changes; "search" stores the normalised type; `scope=.` stores the path; `scope=./` stores the directory scope, or nothing at the root |
| Parser.ParseElementAsWritten | internal/pkg/parser/parser.go:28-223 | the parser as written: the entry carries the element's location; a name token left empty by its scope prefix is indexed, which is the out-of-range read of the first finding |
| Parser.ParseElement | internal/pkg/parser/parser.go:28-223 | the corrected parser (first finding): the entry carries the element's location, and no text makes it index past the end of a token, as the source does on `.` |
| Parser.NeverOutOfRange | internal/pkg/parser/parser.go:147-166 | with the emptiness guard, no tag text reaches an out-of-range index |
| Parser.CorrectedAgreesWithWritten | internal/pkg/parser/parser.go:133-182 | the guarded parser gives the same result as the source on every text that does not index an empty token |
| Parser.DotAloneIndexesEmptyName | internal/pkg/parser/parser.go:153-161 | the tag `.` leaves an empty name token, which the source indexes; the guarded parser reports an invalid name |
| Parser.ParsedEntryIsWellFormed | internal/pkg/parser/parser.go:43-173 | every parsed attribute name is valid, a stored search type is exact, glob or regexp, and a non-empty name of a non-pattern tag is a valid name |
| Parser.ParseElements | internal/pkg/parser/parser.go:225-236 | built on the corrected parser (first finding), so the tag `.` is an invalid name instead of a panic: on success, one entry per element, each the element's own parse |
| Parser.ParseElementsFails | internal/pkg/parser/parser.go:225-236 | succeeds exactly when every element parses; an error names the first element that fails, with its text, location and cause |
| ParserVectors.EmptyIsError | internal/pkg/parser/parser_test.go:20-22 | an empty tag is an error |
| ParserVectors.UnknownSearchType | internal/pkg/parser/parser.go:72-73 | a `?` token with an unknown type is an invalid search type |
| ParserVectors.PlainName | internal/pkg/parser/parser_test.go:23-26 | `meow` is the name meow with no attributes |
| ParserVectors.DotName | internal/pkg/parser/parser_test.go:27-33 | `.meow` scopes meow to its own file |
| ParserVectors.DotSlashName | internal/pkg/parser/parser_test.go:34-40 | `./meow` scopes meow to its file's directory |
| ParserVectors.DotSlashAtRoot | internal/pkg/parser/parser_test.go:144-151 | at path `/`, `./meow` has scope `/` |
| ParserVectors.DotSlashInWorkingDir | internal/pkg/parser/parser_test.go:152-156 | in the working directory, `./meow` has no scope |
| ParserVectors.BareKeys | internal/pkg/parser/parser_test.go:56-63 | bare keys before and after the name store empty values |
| ParserVectors.QuotedValue | internal/pkg/parser/parser_test.go:79-86 | a quoted value is stored unquoted |
| ParserVectors.DuplicateKey | internal/pkg/parser/parser_test.go:120-123 | a key set before the name and again after it is an error |
| ParserVectors.ScopeTwice | internal/pkg/parser/parser_test.go:124-127 | an explicit scope and a `.` prefix clash |
| ParserVectors.ExplicitDotScope | internal/pkg/parser/parser_test.go:128-135 | `scope=.` stores the file's path |
| ParserVectors.ExplicitDirScope | internal/pkg/parser/parser_test.go:136-143 | `scope="./"` stores the file's directory |
| ParserVectors.ExactSearch | internal/pkg/parser/parser_test.go:157-165 | a bare `?` makes an exact search |
| ParserVectors.GlobSearchName | internal/pkg/parser/parser_test.go:184-191 | a glob search accepts `*` as its name |
| Index.KeyLessIsStrictTotalOrder | internal/pkg/index/index.go:21-29 | ordering by name and then by location is a strict total order on sort keys |
| Index.Sort | internal/pkg/index/index.go:36 | the result is sorted and a permutation of the input |
| Index.SortIdempotent | pkg/clutter/clutterindex/index.go:33-37 | sorting a sorted index again keeps its entries and their sequence of keys, and changes nothing when no two entries share a key |
| Index.SortedPermutationsShareKeys | internal/pkg/index/index.go:36 | any two sorted arrangements of the same entries have the same sequence of sort keys, so the unstable sort decides only the order of equal keys |
| Index.SortedPermutationsAgree | internal/pkg/index/index.go:36 | when no two entries share a key, any two sorted arrangements of them are the same sequence, so every sort gives one result |
| Index.NewIndex | internal/pkg/index/index.go:31 | a sorted permutation of the given entries |
| Index.Add | internal/pkg/index/index.go:34-38 | a sorted permutation of the old entries and the new ones |
| Index.AddTwiceIsAddOnce | internal/pkg/index/index.go:34-40 | adding twice gives the keys of adding once, and the size grows by the number added |
| Index.AddNothing | internal/pkg/index/index.go:34-38 | adding no entries keeps the entries and their sequence of keys, and changes nothing when no two entries share a key |
| Index.Lines | internal/pkg/index/index.go:44-54 | one marshalled record per entry, in index order |
| Index.WrittenLines | internal/pkg/index/index.go:94-96 | the written file's lines are the header, the records in order, and a final empty piece |
| Index.HeaderTrim | internal/pkg/index/index.go:94 | a written header trims to the bare marker exactly when the comment is blank, and otherwise starts with the marker and a space |
| Index.ReadLines | internal/pkg/index/filter.go:27-49 | no more entries than lines; a record error names a line of the input, and `Index.ReadLinesReportsLine` proves it is the first record that fails; a missing marker happens only before the header |
| Index.ReadLinesReportsLine | internal/pkg/index/filter.go:27-46 | a record error at line k names the physical line: line k has text, is past the header, and fails to unmarshal with the error reported, and every earlier line is blank, the header, or a record that unmarshals, so it is the first bad line |
| Index.BlankLinesReadNothing | internal/pkg/index/filter.go:29-31 | blank lines read as nothing, header or not |
| Index.BlankFileIsEmpty | internal/pkg/index/filter.go:27-51 | a file with only blank text reads as the empty index |
| Index.ReadFileAsWritten | internal/pkg/index/filter.go:10-52 | the reader as written, whose header must be the marker and a space after trimming: the index read is sorted |
| Index.ReadFile | internal/pkg/index/filter.go:10-52 | the corrected reader (second finding), which also accepts the bare marker a blank comment trims to: the index read is sorted |
| Index.ReadAsWrittenWhatWasWritten | internal/pkg/index/filter.go:10-52 | the reader as written gives a written sorted index back when the comment is not blank: the same entries less empty scopes, the same sequence of keys, and exactly the written entries when no two share a key |
| Index.ReadWhatWasWritten | internal/pkg/index/filter.go:10-52 | the corrected reader gives a written sorted index back for any comment without a newline: the same entries less empty scopes, the same sequence of keys, and exactly the written entries when no two share a key |
| Index.ReadWhatWasWrittenThroughCodec | internal/pkg/index/index.go:44-54 | the same through marshal and unmarshal, for entries whose records are newline-free and round-trip through the CSV codec |
| Index.ReadFileAsWrittenRejectsBlankComment | internal/pkg/index/filter.go:33-41 | the reader as written rejects a file written with a blank comment |
| IndexFilter.Filter | internal/pkg/index/filter.go:61-85 | a nil filter returns the index unchanged; otherwise the result keeps, in order, the entries the filter includes before the first error, which is returned instead unless it is ErrStop |
| IndexFilter.Included | internal/pkg/index/filter.go:79-81 | only entries the filter includes are kept |
| IndexFilter.FilterKeepsOrder | internal/pkg/index/filter.go:61-85 | the filtered index of a sorted index is sorted |
| IndexFilter.FilterAll | internal/pkg/index/filter.go:61-85 | a filter that includes everything gives the index back |
| IndexFilter.ForEach | internal/pkg/index/filter.go:56-59 | succeeds when the callback never errs or first returns ErrStop; otherwise returns the first error |
| Sources.SlicePulls | pkg/clutter/clutterindex/filter.go:46-55 | the entries in order, then the end |
| Sources.SliceSourceRoundTrip | pkg/clutter/clutterindex/filter.go:46-55 | filtering a slice source with no predicate gives the index back |
| Sources.NewEntriesFilter | pkg/clutter/clutterindex/filter.go:12-21 | fails exactly when a name or an attribute pattern fails to compile, with the same error kind for both |
| Sources.NewEntriesFilterMeaning | pkg/clutter/clutterindex/filter.go:23-43 | an entry passes when no names are given or some name pattern accepts its name, and every attribute pattern accepts one of its attribute strings, loc included |
| Sources.Collect | pkg/clutter/clutterindex/filter.go:114-137 | only pulled entries the predicate includes are kept |
| Sources.Kept | pkg/clutter/clutterindex/filter.go:132-134 | a reference for what is kept: the pulled entries the predicate includes, in the order pulled |
| Sources.CollectMeaning | pkg/clutter/clutterindex/filter.go:109-137 | for every source and predicate, Filter's loop returns the first error, from the source or the predicate, or else exactly the included entries pulled before the end, in order |
| Sources.ForEachReportsFirstError | pkg/clutter/clutterindex/filter.go:104-107 | ForEach reports the source's error or fn's, whichever comes first, and no error when the source ends first |
| Sources.ForEach | pkg/clutter/clutterindex/filter.go:104-107 | succeeds exactly when filtering with a predicate that keeps nothing succeeds |
| Sources.ForEachVisitsAll | pkg/clutter/clutterindex/filter.go:104-107 | a callback that never errs lets the walk finish |
| Sources.FilePullsAgreeWithReadLines | pkg/clutter/clutterindex/filter.go:73-101 | the pulls of a file source, collected, are what the index reader reads from the same lines |
| Sources.FileSourceAgreesWithReadFile | pkg/clutter/clutterindex/filter.go:57-102 | the file source fails exactly when ReadFile does, with the same error, and otherwise holds the same entries |
| Sources.FileSourceFailsLikeReadLines | pkg/clutter/clutterindex/filter.go:73-96 | a record error from the file source is the scan loop's error over the lines numbered from 1 |
| Sources.FileSourceReportsPhysicalLine | pkg/clutter/clutterindex/filter.go:70-96 | a record error from the file source names line k, counting from 1, where line k is the first record with text past the header that fails to unmarshal, with that error |
| Sources.FileSourceReadsWhatWasWritten | pkg/clutter/clutterindex/index.go:76-85 | the file source reads back what Write wrote, minus empty scopes |
| Sources.FileSourceAsWrittenRejectsComment | pkg/clutter/clutterindex/filter.go:83-91 | the source as written rejects every file written with a non-blank comment |
| Sources.FileSourceAsWrittenMisnumbers | pkg/clutter/clutterindex/filter.go:93-96 | the source as written names line 1 for a bad record on line 3; physical numbering names line 3 |
| Resolver.SelectorOf | internal/pkg/resolver/resolver.go:30-43 | a search tag gets a matcher selector and any other tag the name-and-referral selector; only a search tag can fail, as an invalid search tag |
| Resolver.SelectorOfFails | internal/pkg/resolver/resolver.go:32-43 | fails exactly when the tag is a search whose matcher fails |
| Resolver.Resolve | internal/pkg/resolver/resolver.go:25-123 | asking for both next and previous is an error; otherwise the only error is an invalid search tag |
| Resolver.Matches | internal/pkg/resolver/resolver.go:50-60 | the matching entries are exactly those of the index the selector selects |
| Resolver.Found | internal/pkg/resolver/resolver.go:62-83 | the first match whose location equals the tag's, if any |
| Resolver.WalkList | internal/pkg/resolver/resolver.go:98-104 | in list mode the walk keeps every match in index order |
| Resolver.WalkFirst | internal/pkg/resolver/resolver.go:98-102 | in first mode it keeps the first match |
| Resolver.WalkNext | internal/pkg/resolver/resolver.go:81-96 | in next mode it keeps the match right after the first one at the tag's location |
| Resolver.WalkPrev | internal/pkg/resolver/resolver.go:61-79 | in previous mode it keeps the match right before the first one at the tag's location |
| Resolver.ResolveListMeaning | internal/pkg/resolver/resolver.go:13-15 | listing gives every match in index order, or an invalid search tag |
| Resolver.ResolveEnds | internal/pkg/resolver/resolver.go:98-120 | first and last modes give the first and the last match, or nothing |
| Resolver.ResolveNextMeaning | internal/pkg/resolver/resolver.go:17-19 | next gives every match for a search tag; otherwise the match after the tag's own, or with cycling the first match when there is none after |
| Resolver.ResolvePrevMeaning | internal/pkg/resolver/resolver.go:21-23 | previous gives every match for a search tag; otherwise the match before the tag's own, or with cycling the last match when there is none before |
| Resolver.StepsGiveAtMostOne | internal/pkg/resolver/resolver.go:61-96 | next and previous of a non-search tag always succeed with at most one entry |
| Resolver.PrevUndoesNext | internal/pkg/resolver/resolver.go:61-96 | when locations are distinct, the previous of the next match is the tag's own match |
| Resolver.ThreeTags | internal/pkg/resolver/resolver.go:81-116 | over three tags a, b, c of one name: next of b is c, previous of b is a, next of c is nothing, and with cycling next of c is a and previous of a is c |
| Linter.InitRule | internal/pkg/linter/linter.go:31-138 | both path patterns, both checks, or no check is an error, in that order; otherwise succeeds exactly when the given pattern and expression compile, with no path pattern passing every path and the chosen evaluator attached |
| Linter.InitRules | internal/pkg/linter/linter.go:147-151 | one internal rule per rule; an error names the first rule that fails, with its index and cause |
| Linter.NewLinter | internal/pkg/linter/linter.go:140-154 | succeeds exactly when every rule initialises, with each rule's own initialisation; otherwise names the first failing rule |
| Linter.RuleAt | internal/pkg/linter/linter.go:156-162 | nothing past the last rule, otherwise the configured rule |
| Linter.LintRule | internal/pkg/linter/linter.go:164-178 | a path the rule does not check passes without evaluation; otherwise the evaluator's verdict or error |
| Linter.UnrestrictedRuleJudgesAll | internal/pkg/linter/linter.go:46 | a rule without a path pattern is evaluated on every entry |
| Linter.Lint | internal/pkg/linter/linter.go:180-204 | succeeds exactly when no rule errs, returning exactly the failing rule indices in increasing order; an error names the first erring rule, titled by its quoted name as written |
| Linter.LintCorrected | internal/pkg/linter/linter.go:180-204 | the corrected Lint (fifth finding): the same verdicts and erring rule, with an unnamed rule titled `rule #i: ` |
| Linter.UnnamedRuleTitleAsWritten | internal/pkg/linter/linter.go:184-186 | as written, an unnamed rule is titled `rule "": `, never by its number |
| Linter.TitleEscapesNewline | internal/pkg/linter/linter.go:184-189 | a control character in a rule's name is escaped in its title as `%q` escapes it: the name `a`, newline, `b` gives `rule "a\nb": ` |
| Linter.TitleNumbersUnnamedRules | internal/pkg/linter/linter.go:184-189 | corrected, an unnamed rule is titled by its number and a named one as before |
| Linter.EntVars | internal/pkg/linter/linter.go:206-217 | the variables are NAME, PATH and one ATTR_ name per attribute |
| Linter.EntVarsMeaning | internal/pkg/linter/linter.go:206-217 | NAME holds the name, PATH the path, and each attribute's variable its value when no other key shares its upper-cased name |
| Scanner.StripOfBracketed | internal/pkg/scanner/scan_raw.go:36-39 | a match is its content between the delimiters, space-trimmed |
| Scanner.MatchAt | internal/pkg/scanner/scan_raw.go:33-77 | the match at span [l, r) of 0-based line i has the stripped text and location line i+1, start l+1, end r, with no path |
| Scanner.Run | internal/pkg/scanner/scan_raw.go:33-80 | no pragma reaches the callback, and only the raw scanner halts |
| Scanner.CallsComeFromMatches | internal/pkg/scanner/scan_raw.go:70-77 | every element handed to the callback is one of the matches |
| Scanner.CallbackAnswers | internal/pkg/scanner/scan_raw.go:70-79 | a scan that did not fail got no error from the callback; a callback failure is the last call's error at its line and column |
| Scanner.RunAppend | internal/pkg/scanner/scan_raw.go:28-81 | scanning two runs of matches is scanning the first and then the second from the state it left |
| Scanner.RunLines | internal/pkg/scanner/scan_raw.go:28-81 | the loop over lines and matches computes the fold over all matches |
| Scanner.RunShowsVisible | internal/pkg/scanner/scan_raw.go:41-68 | without errors, the callback sees exactly the non-pragma matches outside `%stop` ... `%cont` regions, in order |
| Scanner.QuietWhileStopped | internal/pkg/scanner/scan_raw.go:66-68 | while stopped, no match reaches the callback |
| Scanner.StopContSilences | internal/pkg/scanner/scan_raw.go:47-68 | a `%stop` ... `%cont` region hides everything between |
| Scanner.HardStopEndsRun | internal/pkg/scanner/scan_raw.go:43-45 | in the raw scanner, `%stop!` ends the scan with what came before |
| Scanner.HardStopIgnoresRest | internal/pkg/scanner/scan_raw.go:43-45 | what follows `%stop!` does not matter |
| Scanner.RawHardStopSucceeds | internal/pkg/scanner/scan_raw.go:43-90 | a raw scan that reaches `%stop!` succeeds with the calls made before it |
| Scanner.PlainRejectsHardStop | internal/pkg/scanner/scan.go:58-77 | the plain scanner treats `%stop!` as an unknown pragma |
| Scanner.PragmaErrors | internal/pkg/scanner/scan_raw.go:47-61 | `%stop` while stopped, `%cont` while running, and any other pragma are errors |
| Scanner.CallbackAborts | internal/pkg/scanner/scan_raw.go:70-79 | a callback error ends the scan with the element's line and column |
| Scanner.Finish | internal/pkg/scanner/scan_raw.go:83-90 | a failed fold keeps its error; otherwise only a read error other than an over-long token is reported |
| Scanner.TooLongSucceeds | internal/pkg/scanner/scan_raw.go:83-85 | an over-long token ends the scan like the end of input |
| Scanner.ScanRawReader | internal/pkg/scanner/scan_raw.go:12-91 | no element is a pragma or carries a path, and a successful scan got no callback error |
| Scanner.ScanReader | internal/pkg/scanner/scan.go:16-104 | a head judged non-text gives no calls and no error; a head read error is reported before any call |
| Scanner.ScanReaderReportsVisible | internal/pkg/scanner/scan.go:58-92 | a successful scan reports exactly the visible matches |
| Scanner.ScanFile | internal/pkg/scanner/scan.go:106-139 | every element carries the path, and a file that cannot be opened gives its error and no calls |
| Scanner.ScanFileFillsPath | internal/pkg/scanner/scan.go:134-137 | scanning a file is scanning its reader with each element's path set to the file's |
| ZLog.String | pkg/zlog/level.go:43-49 | an unknown level prints as its number, a named level as one of the seven names |
| ZLog.LevelOf | pkg/zlog/level.go:32-40 | exactly the seven names have levels, each the level with that name |
| ZLog.ParseLevelString | pkg/zlog/level.go:55-62 | parses exactly when the lower-cased text is a name, to that name's level; otherwise Debug and the unknown-level error |
| ZLog.ParseString | pkg/zlog/level.go:22-62 | every named level parses back from its name |
| ZLog.ParseIgnoresCase | pkg/zlog/level.go:55-62 | parsing a text and its lower-cased form agree |
| ZLog.StringDistinguishesLevels | pkg/zlog/level.go:22-30 | distinct named levels print differently |
| ZLog.UnknownStringDoesNotParse | pkg/zlog/level.go:43-62 | the number an unknown level prints as does not parse |
| ZLog.ReportableMonotone | pkg/zlog/level.go:64 | a more severe level, or a lower minimum, keeps a level reportable |
| ZLog.ReportableBelowFatal | pkg/zlog/level.go:64 | below Fatal, a level is reportable exactly when it reaches the minimum |
| ZLog.PairString | pkg/zlog/pairs.go:13 | a pair's text is the quoted key, a colon and a space, and the quoted value; each quoted part reads back to the key and to the value's text |
| ZLog.Strings | pkg/zlog/pairs.go:17-23 | one text per pair, in order |
| ZLog.PairsStringSnoc | pkg/zlog/pairs.go:25 | the pairs' texts joined by ", " |
| ZLog.ToPairs | pkg/zlog/pairs.go:30-50 | a success came from an even number of arguments and has half as many pairs |
| ZLog.ToPairsErrors | pkg/zlog/pairs.go:30-50 | a non-string key anywhere is the key error; otherwise an odd count is the odd-args error; otherwise it succeeds |
| ZLog.ToPairsContents | pkg/zlog/pairs.go:33-44 | pair i is argument 2i as key and argument 2i+1 as value |
| ZLog.ToPairsOfFlatten | pkg/zlog/pairs.go:30-50 | laying pairs out as arguments and pairing them again gives them back |

## Left out

- Glob, regular-expression, expression and shell semantics, `text/scanner` tokenisation, `strconv.Unquote`, `filepath.Dir` and CSV quoting: these are parameters, because their code is not part of this model. `Attrs.Strings`, used by `NewEntriesFilter`, is one too.
- The bracket regular expression and its "invalid bracket" error: the match spans of each line are inputs (`Scanner.Line`).
- Span offsets count characters, while Go counts bytes. The two agree on ASCII text.
- Reading input: `bufio` line splitting, the 128-byte text test of `ScanReader` (an input `Head`), file opening, stdin selection, temporary files and renames. Read errors are inputs (`Scanner.Ending`, `Scanner.ScanFile`'s `open`).
- Index.ReadLines: neither Go index reader checks `scanner.Err()` (internal/pkg/index/filter.go:27, pkg/clutter/clutterindex/filter.go:74). A line longer than `bufio`'s token limit therefore ends the read silently, and Go returns the entries read so far with no error. The model reads every line.
- Logging: `z.Warn`, `z.Debugw` and the rest write nothing the model needs.
- The zlog backends, the command-line program, configuration loading and the watch loop.
- `OverrideWith` and the linter's `re_match`/`glob_match` helper functions, which live inside the expression engine.
- `resolve`'s `z.Panic` on both next and previous: modelled as the error `ConflictingFlags`.
- `resolve`'s "filter:" error path cannot happen, because its callback returns only nil or ErrStop; the model has no such error.
- The order in which `Matcher` meets attribute keys: Go walks the map in random order, so when several attribute patterns fail, the error may name any of them. `CompileAttrs` takes the order as a parameter and claims only that the error names some failing key.
- A nil map and an empty map are the same map here: `ParseElement` returning nil `Attrs` for no attributes is not visible.
- Index.Sort: insertion sort stands in for `sort.Sort`. Only sortedness, the permutation and the sequence of sort keys are claimed; the order of entries with equal keys is not. Exact sequences (`Index.SortIdempotent`, `Index.AddNothing`, `Index.ReadWhatWasWritten`) are claimed only when no two entries share a key.
- Linter.EntVars: upper-casing maps ASCII letters only, where `strings.ToUpper` maps all of Unicode. The variable names are exact for every key the parser produces: its attribute-name check (internal/pkg/parser/parser.go:25) admits only ASCII letters, digits, `_`, `:` and `-`, because Go's `\w` is ASCII-only. A key read back from an index file may hold other letters, and for such a key the model's name differs from the source's.
- Linter.EntVarsMeaning: stated over the same ASCII upper-casing as `Linter.EntVars`, so it is exact for the same keys only.
- Strs.Quote: `%q` is modelled exactly for ASCII: `"` and `\` behind a backslash, `\a` `\b` `\f` `\n` `\r` `\t` `\v`, and `\x` with two hex digits for the other controls and DEL. Go also writes non-ASCII characters that `unicode.IsPrint` rejects as `\u` or `\U` escapes; the model leaves them as they are, because the Unicode printability table is not part of this model. Its users are `Linter.Lint`, `Linter.LintCorrected` and `ZLog.PairString`.
- Linter.Lint: a rule title quotes the name with `Strs.Quote`, so it differs from Go's only for a name holding a non-ASCII character that is not printable.
- Linter.LintCorrected: the same quoting gap as `Linter.Lint`, for named rules.
- ZLog.PairString: the same quoting gap as `Strs.Quote`; the value of a non-string argument is the text `%+v` gives, as an input.
- Strs.ToLower: lower-casing maps ASCII letters and the two non-ASCII letters whose simple lower case is ASCII; other scripts are left unchanged.
- Linter.RuleAt: an index is a `nat`, so a negative index is not modelled.
- Level 7 and above is unknown but still always reportable, as in the source (`IsLevelReportable` tests only `asked >= Fatal`).
- Sources.FilePulls: a source is the finite list of answers it gives; a source that never ends is not modelled.

## Findings

| source | as written | input that shows it | evidently intended | confidence | as-written member | corrected member |
|---|---|---|---|---|---|---|
| internal/pkg/parser/parser.go:153-161 | after stripping a leading `.` or `./`, the code reads `tok[0]` with no length check | the tag `.` (or `./`) alone: the token left is empty and indexing it panics | an empty name is reported as an invalid name | high (not executed) | Parser.DotAloneIndexesEmptyName | Parser.CorrectedAgreesWithWritten |
| internal/pkg/index/filter.go:34 | the header must start with `# v4 ` (marker and a space), compared after trimming | a file written by `WriteFile` with an empty comment: its header `# v4 ` trims to `# v4` and is rejected | every header `WriteFile` writes (internal/pkg/index/index.go:94) is accepted | high (not executed) | Index.ReadFileAsWrittenRejectsBlankComment | Index.ReadWhatWasWritten |
| pkg/clutter/clutterindex/filter.go:84 | the header must equal `# v4` | a file written by `Write` with the comment `x`: its header `# v4 x` is rejected | every header `Write` writes (pkg/clutter/clutterindex/index.go:76) is accepted | high (not executed) | Sources.FileSourceAsWrittenRejectsComment | Sources.FileSourceReadsWhatWasWritten |
| pkg/clutter/clutterindex/filter.go:70 | the line counter `i` starts at 1 and is never advanced | a bad record on line 3 is reported as on line 1 | the physical line number is reported | high (not executed) | Sources.FileSourceAsWrittenMisnumbers | Sources.FileSourceReportsPhysicalLine |
| internal/pkg/linter/linter.go:184-186 | the name is formatted with `%q`, which is never empty, so the `#i` fallback is dead | an unnamed rule is titled `rule "": ` | an unnamed rule is titled by its index, `rule #i: ` | medium (not executed) | Linter.UnnamedRuleTitleAsWritten | Linter.LintCorrected |
