# zero-server: models and proofs

This project models the self-contained algorithms of the zero-server repository in Dafny and proves
what they are for. The loops, stacks, worklists and buffers of the source are methods with loops, and
its objects with changing fields are classes; each such method is proved against a function or a
relation, and the properties are lemmas about those.

| Part | Files | What is modelled |
|---|---|---|
| C preprocessor | `Condition*`, `Preprocess*`, `Directives`, `Numbers`, `Numerals` | `#if` conditions with macros that re-enter the evaluator, and the flat machine that keeps the lines of a header a C17 compiler keeps |
| Release order | `Release`, `Ordering`, `Finite` | the greedy order in which crates are published |
| C# mirror | `Header`, `Render`, `Surface`, `SurfaceBlank`, `SurfaceLiterals`, `SurfaceReader`, `ReaderForms`, `SurfaceCheck`, `SurfaceProblems`, `EnumMirrors`, `TypeMap`, `Spellings`, `Documentation` | the printer of the C# declarations of a C header, the reader of C# files, and the comparison of the two surfaces |
| Round trip of the mirror | `Words`, `TypeTexts`, `ReadBack`, `MembersBack`, `ImportsBack`, `HeadsBack`, `RenderedLines`, `RenderedGood`, `StructsBack`, `FunctionsBack`, `EnumsBack`, `EnumFile`, `RoundTrip` | that what is printed is read back to what the header says, and a file with an enum as it is written |
| Status channel | `StatusChannel`, `StatusOrder`, `StatusDetails` | lock-free admission to a queue of 16 calls as interleaved steps, and the ring of the last 64 details |
| Staging | `Staging`, `StagingAnswers` | regions staged as ArrayBuffers and sent as response bodies |
| Base64 | `Base64`, `Base64Proofs` | the encoder and the strict decoder over caller-supplied buffers (RFC 4648) |
| TLS client hello | `Tls`, `TlsProofs` | the strict parser of a client hello out of handshake records, and fragmenting it again (RFC 9846) |
| Features, regions, wrapping | `Features`, `Regions*`, `RegionMarkers`, `Wrap` | the feature closure, the re-rendered regions of a Markdown file, greedy word wrap |

`Text` holds the string operations of the Rust standard library that the tools use, on strings as
sequences of Unicode scalar values; `Wrappers` holds `Option` and `Result`.

## Results that differ from what the source says

- **Staging.** The documentation of `res_send_staged` (`bindings/node/src/staging.rs:211-216`) names
  the causes of an invalid-argument answer and says that nothing is detached or written then. The code
  gives that answer for one more cause, a body region that is open on the slot, and when the buffer was
  already detached the staged region is by then gone from the map. No code of this binding opens such a
  region: only another writer of the same slot does, by `access::body_alloc` after `access::pin`
  (`crates/zero-host/src/access.rs`), which `bindings/node/src` never calls. Without one, on the slot as
  the write finds it, the documentation holds (`Staging.InvalidArgumentChangesNothing`, and over runs
  `Staging.InvalidArgumentSendsChangeNothing`). `Staging.InvalidArgumentMayDropTheRegion` is a run that
  ends in the other case, `Staging.InvalidArgumentUnchanged` and
  `Staging.InvalidArgumentDropsTheRegionWhen` are the exact conditions.
- **Blanking.** The documentation of `blank` (`crates/xtask/src/surface.rs:208-219`) says that regular,
  verbatim and raw literals are known. Three quotes are taken for a raw literal before the `@` is looked
  for, so a verbatim literal whose contents start with a quote is read as a raw one, up to the end of the
  text if need be. `SurfaceLiterals.VerbatimMisread` is such a text, `SurfaceLiterals.VerbatimIsCleared`
  the exact condition.
- **Regions.** Processing a file a second time need not leave it as it is: of several carriage returns
  before a line feed every run takes one. `RegionsFixpoint.ReturnsAreLost` is such a file,
  `RegionsFixpoint.ProcessedTwice` the exact condition, and without such lines one run is a fixpoint.
- **Status details.** A detail is never shown under another event's number only up to 2^64 records;
  `StatusDetails.NumberComesBack` shows that the bound is exact.

## Model

| member | source | states |
|---|---|---|
| ConditionReader.ConditionTokens | crates/xtask/src/ffi_mirror.rs:569-595 | the tokeniser of a condition, as a loop over the rest of the text |
| ConditionReader.ConditionExpr.Eat | crates/xtask/src/ffi_mirror.rs:606-613 | takes an operator if it comes next, and then only moves on by it |
| ConditionReader.ConditionExpr.ReadOr | crates/xtask/src/ffi_mirror.rs:615-622 | reads a chain of disjunctions, both sides evaluated, and leaves the reader after it |
| ConditionReader.ConditionExpr.ReadAnd | crates/xtask/src/ffi_mirror.rs:624-631 | reads a chain of conjunctions, both sides evaluated, and leaves the reader after it |
| ConditionReader.ConditionExpr.ReadCompare | crates/xtask/src/ffi_mirror.rs:633-649 | reads at most one comparison and leaves the reader after it |
| ConditionReader.ConditionExpr.ReadUnary | crates/xtask/src/ffi_mirror.rs:651-705 | reads a negation, group, `defined`, number or name, evaluating a macro's replacement as its own expression, and ends for every macro table |
| ConditionReader.EvaluateText | crates/xtask/src/ffi_mirror.rs:537-554 | the value of a whole condition: empty text, leftover tokens and every error of its parts included |
| ConditionReader.ReadCondition | crates/xtask/src/ffi_mirror.rs:531-533 | a condition holds when its value is not 0 |
| Condition.NestingBound | crates/xtask/src/ffi_mirror.rs:691-704 | replacement lists never nest deeper than there are object-like macros, however cyclic they are |
| ConditionGrammar.TreeEvaluates | crates/xtask/src/ffi_mirror.rs:537-554 | a spelled tree of the grammar is consumed whole and comes to its own value, or to its own error |
| ConditionGrammar.EvaluatedIsTree | crates/xtask/src/ffi_mirror.rs:597-706 | every text that is given a value spells a tree of that value |
| ConditionGrammar.EvaluateIsGrammar | crates/xtask/src/ffi_mirror.rs:537-706 | the four mutually recursive methods give a text a value if and only if it spells a tree of the grammar with that value |
| ConditionMeaning.EvaluateIsMeaning | crates/xtask/src/ffi_mirror.rs:537-706 | a text is given a value if and only if it is a tree that has this value in a relation apart from the reader, in which a macro has the values of the trees its replacement list spells |
| ConditionValues.NumbersCompared | crates/xtask/src/ffi_mirror.rs:633-649 | two written numbers with `>=`, `<=`, `==`, `!=`, `>` or `<` between them come to 1 or 0 as the numbers compare |
| ConditionValues.NumbersCombined | crates/xtask/src/ffi_mirror.rs:615-655 | negation, conjunction and disjunction of written numbers come to 1 or 0 |
| ConditionValues.OperatorsMean | crates/xtask/src/ffi_mirror.rs:615-655 | the same of any two operands, on the trees of the grammar |
| ConditionValues.VersionCompared | crates/xtask/src/ffi_mirror.rs:384-388 | `__STDC_VERSION__` is 201710 beside any number, and the other two predefined names are 1 |
| ConditionValues.DefinedMeans | crates/xtask/src/ffi_mirror.rs:660-680 | `defined` of a name, with parentheses or without, is 1 if and only if the name is a macro or one of the three predefined names |
| ConditionValues.NameMeans | crates/xtask/src/ffi_mirror.rs:681-705 | a name that is no macro is 0, a macro of a number is the number, and a function-like macro is an error |
| ConditionValues.NumbersRefused | crates/xtask/src/ffi_mirror.rs:537-659 | two numbers are not one expression, and a parenthesis before one is unclosed |
| ConditionValues.DefinedRefused | crates/xtask/src/ffi_mirror.rs:669-679 | `defined` without a name, and without the parenthesis that closes one, is refused |
| ConditionValues.CharacterRefused | crates/xtask/src/ffi_mirror.rs:584-590 | a character that starts no token is refused |
| Numerals.IntegerWritten | crates/xtask/src/ffi_mirror.rs:1053-1070 | decimal and hexadecimal integers, in either case and with any suffixes, are read as their numbers up to 2^127 - 1 and refused above |
| ConditionSpelling.TokensSpelled | crates/xtask/src/ffi_mirror.rs:569-595 | tokens written out with spaces are tokenised to the same tokens |
| ConditionSpelling.SpelledTreeEvaluates | crates/xtask/src/ffi_mirror.rs:531-706 | a tree written out as text, tokenised and read comes to its own value |
| ConditionSpelling.CycleIsZero | crates/xtask/src/ffi_mirror.rs:675-705 | each name of a cycle of object-like macros of any length comes to 0 |
| Preprocess.SpliceLine | crates/xtask/src/ffi_mirror.rs:416-427 | joins the lines that end in a backslash, and counts their line breaks |
| Preprocess.Nest | crates/xtask/src/ffi_mirror.rs:443-475 | the stack of flags after a conditional directive; skipped conditions are not evaluated |
| Preprocess.Preprocess | crates/xtask/src/ffi_mirror.rs:411-505 | the loop over lines, with its output, macro table and stack, is the run of the flat machine on the spliced lines |
| Directives.WordsRead | crates/xtask/src/ffi_mirror.rs:429-442 | a line of a `#`, a word and a rest, in any white space, is the directive of that word with that rest |
| Directives.BlockCommentIsSpace | crates/xtask/src/ffi_mirror.rs:709-740 | a block comment in a directive stands for one space |
| Directives.LineCommentDropped | crates/xtask/src/ffi_mirror.rs:709-740 | a directive ends before a line comment |
| Directives.NameDecides | crates/xtask/src/ffi_mirror.rs:443-454 | an `#ifdef` keeps its group if and only if its name is a macro or one of the three predefined names, an `#ifndef` if and only if it is not; else only line breaks are left |
| Directives.ConditionsDecide | crates/xtask/src/ffi_mirror.rs:443-475 | of `#if`, `#elif` and `#else` the first group whose condition is not 0 is kept, or else the last; the second condition is looked at only if the first is 0 |
| Directives.NameDefinedAs | crates/xtask/src/ffi_mirror.rs:476-484 | `#define` of a name leaves the name standing for what follows it and no other macro changed |
| Directives.NameTakesArguments | crates/xtask/src/ffi_mirror.rs:476-484 | `#define` of a name and a parenthesis right behind it leaves a function-like macro |
| Directives.NameUndefined | crates/xtask/src/ffi_mirror.rs:485-487 | `#undef` takes its name out of the macros |
| Directives.ErrorStops | crates/xtask/src/ffi_mirror.rs:488-490 | `#error` in a processed group stops at its line |
| Directives.NothingOpen | crates/xtask/src/ffi_mirror.rs:456-474 | `#elif`, `#else` and `#endif` without an open conditional are refused at their line |
| Directives.OneName | crates/xtask/src/ffi_mirror.rs:508-514 | `#ifdef`, `#ifndef` and `#undef` of anything but one name are refused at their line |
| Directives.CodeKept | crates/xtask/src/ffi_mirror.rs:494-496 | a line without a `#` in front is kept as it is |
| Directives.CutLine | crates/xtask/src/ffi_mirror.rs:416-427 | a line cut by backslashes is one line again, with as many breaks as pieces |
| PreprocessGroups.RunSkipped | crates/xtask/src/ffi_mirror.rs:428-475 | of a skipped group only the line breaks are kept, and no macro changes |
| PreprocessGroups.MachineIsTree | crates/xtask/src/ffi_mirror.rs:402-505 | on the lines of a conditional tree the flat machine outputs exactly what recursive evaluation keeps: the first group whose condition is not zero, else the `#else` group, with macros changed only in processed groups (or its first error) |
| PreprocessGroups.PreprocessIsConditionalInclusion | crates/xtask/src/ffi_mirror.rs:402-505 | lines are accepted with an output if and only if they are those of a tree that keeps that output |
| PreprocessGroups.NestedIsTree | crates/xtask/src/ffi_mirror.rs:443-475 | properly nested lines are the lines of a tree |
| PreprocessGroups.RunOnlyNested | crates/xtask/src/ffi_mirror.rs:500-504 | lines that are accepted are properly nested |
| PreprocessGroups.OneBreakPerLine | crates/xtask/src/ffi_mirror.rs:407-408 | what is kept has one line break for each line read |
| Release.PublishOrder | crates/xtask/src/release.rs:169-208 | succeeds if and only if every dependency is publishable and there is no cycle; the result is the lexicographically least of all orders; a cycle error names exactly the members from which a cycle is reached; an unpublishable dependency is reported as the first of them |
| Release.OrderMeans | crates/xtask/src/release.rs:161-208 | an order is a permutation of the publishable names with every dependency before its dependents |
| Release.GreedyIsLeast | crates/xtask/src/release.rs:187-206 | taking the first ready name each time gives the first of all orders |
| Release.LeastIsUnique | crates/xtask/src/release.rs:161-208 | a graph has one first order only, whatever way it is found |
| Release.PublishedSorted | crates/xtask/src/release.rs:161-208 | publishable members without dependencies come out as their names sorted by code point |
| Release.GraphIs | crates/xtask/src/release.rs:176-186 | of members of different names, the publishable ones are the graph, each with its own dependencies |
| Ordering.BeforeMeans | crates/xtask/src/release.rs:163-164 | one name is before another if and only if it ends where the other goes on or has the lower code point at the first difference |
| Release.StuckIsCycleNames | crates/xtask/src/release.rs:191-199 | when nothing is ready, what waits is what reaches a cycle |
| Release.OrderedAcyclic | crates/xtask/src/release.rs:187-207 | a graph that has an order has no cycle |
| StatusDetails.Details.Record | bindings/node/src/status.rs:102-110 | adds a detail to the history and returns its number modulo 2^64 |
| StatusDetails.Details.Read | bindings/node/src/status.rs:112-119 | reads the ring as the function of the history does |
| StatusDetails.ReadMeans | bindings/node/src/status.rs:90-125 | a number reads as the text recorded under it if that is among the last 64, and as the empty string otherwise |
| StatusDetails.OwnDetailOrNone | bindings/node/src/status.rs:111-119 | until 2^64 more are recorded, a detail reads as itself or as the empty string |
| StatusDetails.NumberComesBack | bindings/node/src/status.rs:102-110 | the detail recorded 2^64 later is read under the same number |
| StatusChannel.StepKeepsInv | bindings/node/src/status.rs:145-228 | every step of every thread and of the callback keeps the four invariants |
| StatusChannel.QueueIsBounded | bindings/node/src/status.rs:147-184 | in every interleaving the count is the reservations of posters plus the calls Node holds, at most 16, and above 0 whenever it is decremented |
| StatusChannel.EventsAreAccountedFor | bindings/node/src/status.rs:167-184 | counted events are those delivered, dropped and in progress |
| StatusChannel.EachEventOnce | bindings/node/src/status.rs:167-228 | every recorded event is in exactly one place: none is lost or delivered twice |
| StatusChannel.DeliveriesAreOwn | bindings/node/src/status.rs:188-228 | a callback is given its own event's detail or the empty string |
| StatusChannel.GivesUpOnlyWhenFull | bindings/node/src/status.rs:147-164 | an event is given up on only by a poster that read all 16 places taken |
| StatusOrder.CallbacksInOrder | bindings/node/src/status.rs:167-228 | the callbacks that ran, the running one and the waiting ones are the events Node took, in the order it took them |
| StatusOrder.RefusedIsDropped | bindings/node/src/status.rs:145-184 | an event Node refuses or its poster gives up on never has a callback, and one Node takes is never dropped |
| Staging.Isolate.Stage | bindings/node/src/staging.rs:133-185 | prunes, refuses or stages a region, and makes the buffer over it |
| Staging.Isolate.Send | bindings/node/src/staging.rs:221-259 | the send with its checks, detachment and answers, in the order of the source |
| Staging.Isolate.Forget | bindings/node/src/staging.rs:89-97 | drops the regions of the given slots and nothing else |
| Staging.StepKeepsInv | bindings/node/src/staging.rs:71-259 | staging, sending, forgetting, JavaScript's transfers and collections and the core's releases keep the invariant |
| Staging.CoreReadsUnreachableMemory | bindings/node/src/staging.rs:221-259 | in every run a region becomes a response body at most once, and then no attached buffer is over it |
| Staging.SendInstallsTheStagedRegion | bindings/node/src/staging.rs:229-258 | a send installs the slot's own region, whose one attached buffer was the argument, and detaches it |
| StagingAnswers.SendIsSent | bindings/node/src/staging.rs:221-259 | in every run a send of a region by its own buffer, to a slot that is leased, not poisoned, not sealed and without an open region, is sent if and only if the body is not over the limit |
| StagingAnswers.BufferIsTheRegions | bindings/node/src/staging.rs:236-240 | in every run the buffers taken for a slot's are exactly those over its region |
| StagingAnswers.SendRefused | bindings/node/src/staging.rs:221-242 | which check refuses a send, and with what answer |
| StagingAnswers.SendRefusedLater | bindings/node/src/staging.rs:243-258 | what a send answers, and leaves, when the slot was changed between its checks and the write |
| StagingAnswers.DetachedIsAnswered | bindings/node/src/staging.rs:232-250 | what a send of a detached buffer, or of one that does not let itself be detached, answers and leaves |
| StagingAnswers.PruneKeeps | bindings/node/src/staging.rs:139-142 | from 64 regions on pruning keeps exactly those of the slots that take a response |
| StagingAnswers.StageIsBuffered | bindings/node/src/staging.rs:133-185 | an unstaged slot that takes a response is staged and gets its buffer if the memory is shared, and the answer if not |
| StagingAnswers.StageRefused | bindings/node/src/staging.rs:133-148 | which stagings are refused, and with what answer |
| Staging.SendUnchanged | bindings/node/src/staging.rs:221-259 | a send changes nothing if and only if one of its checks refuses it |
| Staging.InvalidArgumentChangesNothing | bindings/node/src/staging.rs:206-259 | a send refused with an invalid argument changes neither the map nor a buffer, when no body region is open on the slot as the write finds it |
| Staging.InvalidArgumentSendsChangeNothing | bindings/node/src/staging.rs:206-259 | the same of every such send of every run |
| Staging.InvalidArgumentUnchanged | bindings/node/src/staging.rs:206-259 | exactly when a send refused with an invalid argument changes neither the map nor a buffer |
| Staging.InvalidArgumentDropsTheRegionWhen | bindings/node/src/staging.rs:229-245 | the one family of such sends that does drop the region, when nothing else writes the slot meanwhile |
| Staging.InvalidArgumentMayDropTheRegion | bindings/node/src/staging.rs:206-245 | a run (stage, transfer, send of the old buffer) whose last send is of that family and drops the region |
| Base64.EncodeSlice | crates/zero-base64/src/lib.rs:166-209 | writes exactly the encoding, or reports a full or too long buffer and writes nothing |
| Base64.Encode | crates/zero-base64/src/lib.rs:216-222 | the encoding as a new text |
| Base64.DecodeSlice | crates/zero-base64/src/lib.rs:244-297 | writes exactly the decoded bytes, quantum by quantum, or reports the first error |
| Base64.Decode | crates/zero-base64/src/lib.rs:310-316 | decodes into a buffer of the decoded length |
| Base64.ReadValues | crates/zero-base64/src/lib.rs:338-350 | the values of a quantum, or the first byte outside the alphabet and its index |
| Base64.ValueInvertsChar | crates/zero-base64/src/lib.rs:33-56 | a byte has a value if and only if it is that value's character |
| Base64Proofs.AlphabetIs | crates/zero-base64/src/lib.rs:33-56 | the characters of the alphabets, and the equals sign |
| Base64Proofs.SextetsAreBits | crates/zero-base64/src/lib.rs:166-209 | the four values of a quantum are its three bytes as one number of 24 bits |
| Base64Proofs.PaddedInFours | crates/zero-base64/src/lib.rs:166-209 | a padded encoding has a length in fours and ends in as many equals signs as its last quantum lacks |
| Base64Proofs.LengthsAre | crates/zero-base64/src/lib.rs:100-147 | the two length functions are exact for whatever an array can hold |
| Base64Proofs.DecodeIffEncode | crates/zero-base64/src/lib.rs:166-347 | decoding gives some bytes if and only if their encoding is the input: round trip and one accepted spelling |
| Base64Proofs.DecodesIffEncoding | crates/zero-base64/src/lib.rs:244-347 | the same for a buffer of any capacity: the input decodes if and only if it is an encoding that fits |
| Base64Proofs.ValidFailsOnlyFull | crates/zero-base64/src/lib.rs:244-297 | valid input fails only with a full buffer, and then the buffer is shorter than the decoded bytes |
| Base64Proofs.DecodedLenNeverFull | crates/zero-base64/src/lib.rs:138-147 | a buffer of the decoded length is never reported full, valid input or not |
| Base64Proofs.PaddingRefused | crates/zero-base64/src/lib.rs:244-297 | which texts are refused for their padding |
| Base64Proofs.LengthRefused | crates/zero-base64/src/lib.rs:244-297 | one character left over is refused |
| Base64Proofs.FirstByteRefused | crates/zero-base64/src/lib.rs:244-350 | the first byte outside the alphabet is refused at its offset |
| Base64Proofs.BitsRefused | crates/zero-base64/src/lib.rs:270-297 | bits that the last quantum does not use have to be zeros |
| Tls.Cursor.Take | fuzz/fuzz_targets/tls_hello.rs:109-113 | takes so many octets off the front, or none |
| Tls.Cursor.Vector16 | fuzz/fuzz_targets/tls_hello.rs:129-132 | takes a vector with a two-octet length |
| Tls.Parse | fuzz/fuzz_targets/tls_hello.rs:141-232 | the loop over records and the strict reading of the hello, with every refusal |
| Tls.JoinRecords | fuzz/fuzz_targets/tls_hello.rs:142-171 | the message the records come to, its first record version and whether all are that one |
| Tls.ReadExtensions | fuzz/fuzz_targets/tls_hello.rs:204-230 | the extensions with no type twice |
| Tls.Refragment | fuzz/fuzz_targets/tls_hello.rs:292-301 | the message in records of the given size, for every size and message for which the source does not panic |
| TlsProofs.ParsedIffCarried | fuzz/fuzz_targets/tls_hello.rs:135-232 | bytes are parsed if and only if records at their start carry a well-formed hello, and then to what that hello offers |
| TlsProofs.VersionsAre | fuzz/fuzz_targets/tls_hello.rs:213-223 | supported versions are exactly a list of 1 to 127 versions |
| TlsProofs.FragmentsDecide | fuzz/fuzz_targets/tls_hello.rs:146-171 | the message and what it offers depend only on the joined fragments, however they are cut and whatever follows |
| TlsProofs.RefragmentedParses | fuzz/fuzz_targets/tls_hello.rs:292-301 | fragmented again with any size the source takes, a parsed hello is parsed to the same hello of one record version, if and only if no fragment is over 2^14 octets |
| Features.TurnedOn | crates/xtask/src/catalog.rs:1482-1503 | ends on every feature table and returns exactly the dependencies that features reachable from the start name |
| Features.ClosedHoldsReachable | crates/xtask/src/catalog.rs:1486-1501 | a set closed under the entries of its features holds what is reachable |
| Features.DependencyWritten | crates/xtask/src/catalog.rs:1490-1498 | an entry asks for a dependency if and only if it is `dep:` and its name, or the name and a feature of it behind a slash without a question mark |
| Features.FeatureWritten | crates/xtask/src/catalog.rs:1490-1500 | an entry names a feature if and only if it is that name, without a slash and without `dep:` |
| Regions.Process | crates/xtask/src/regions.rs:24-61 | the loop with its fence flag and its skip to the end marker |
| RegionsProofs.ProcessedIsRendered | crates/xtask/src/regions.rs:24-61 | processing replaces the bodies of the regions and keeps every other line in order, fenced code included |
| RegionsProofs.ProcessedIsDoc | crates/xtask/src/regions.rs:24-61 | whatever is processed has that structure |
| RegionMarkers.FenceWritten | crates/xtask/src/regions.rs:65-68 | a line is a fence if and only if three backquotes or three tildes stand first in it behind white space |
| RegionMarkers.EndWritten | crates/xtask/src/regions.rs:11 | a line ends a region if and only if it is the end marker in white space |
| RegionMarkers.DirectiveWritten | crates/xtask/src/regions.rs:71-78 | a line opens a region if and only if it is a directive within comment marks, and that is what the renderer is given |
| RegionsFixpoint.ProcessedTwice | crates/xtask/src/regions.rs:24-61 | for a renderer that renders no end marker a second run succeeds, and changes nothing if and only if no kept line before a line feed ends in a carriage return |
| RegionsFixpoint.ProcessedOnceAndForAll | crates/xtask/src/regions.rs:24-61 | without such lines one run is a fixpoint |
| RegionsFixpoint.ReturnsAreLost | crates/xtask/src/regions.rs:30-58 | a file that a second run changes |
| Wrap.Wrap | crates/xtask/src/ffi_names.rs:496-512 | the loop that fills a line word by word |
| Wrap.BrokenKeepsWords | crates/xtask/src/ffi_names.rs:494-512 | the words stand on the lines in their order, and every line fits or is one word |
| Wrap.WrapIsLeast | crates/xtask/src/ffi_names.rs:494-512 | no other breaking into lines that fit or are one word has fewer lines |
| Wrap.BytesAre | crates/xtask/src/ffi_names.rs:496-512 | the width of a line is the length of its UTF-8 encoding, from which each character is decoded again |
| Surface.Canonical | crates/xtask/src/surface.rs:799-843 | the loop that spells a type canonically |
| Surface.SameSpelling | crates/xtask/src/surface.rs:786-843 | two types are spelled alike if and only if they are the same words and marks, up to white space, qualifiers and the names of the built-in types |
| Spellings.SpellingIsParts | crates/xtask/src/surface.rs:799-843 | two types written of words, marks and white space, with `System.` before them or without, are spelled alike if and only if their words under their keywords and their marks are the same |
| Spellings.QualifiedRead | crates/xtask/src/surface.rs:799-805 | a type is read as the same with `System.` or `global::System.` before it |
| Spellings.KeywordIs | crates/xtask/src/surface.rs:806-825 | the name of a built-in type becomes the keyword of the type of the same width and signedness |
| TypeMap.PrimitiveIs | crates/xtask/src/ffi_mirror.rs:1253-1269 | an arithmetic type of C maps to that of C# of the same width and signedness, and nothing else maps to one |
| TypeMap.NamedMaps | crates/xtask/src/ffi_mirror.rs:1341-1375 | structs, enums and arithmetic types by value and behind pointers |
| TypeMap.VoidMaps | crates/xtask/src/ffi_mirror.rs:1341-1375 | `void` and pointers to it |
| TypeMap.HandleMaps | crates/xtask/src/ffi_mirror.rs:1350-1366 | an opaque handle crosses behind a pointer only, as `nint` |
| TypeMap.BufferMaps | crates/xtask/src/ffi_mirror.rs:1316-1319 | the elements of fixed buffers |
| TypeMap.FunctionMaps | crates/xtask/src/ffi_mirror.rs:1380-1389 | function pointers, with their parameter types and their result type in order |
| SurfaceCheck.Check | crates/xtask/src/surface.rs:865-914 | the problems are exactly the differences, in the order in which the source reports them, and there is none if and only if the surfaces agree |
| SurfaceCheck.CompareImport | crates/xtask/src/surface.rs:919-952 | exactly the differences of one import in order: its parameter count, or its result type and its parameter types |
| SurfaceCheck.CompareStructs | crates/xtask/src/surface.rs:955-1022 | exactly the differences of the sequential structs in order, field by field |
| SurfaceCheck.CompareEnums | crates/xtask/src/surface.rs:1026-1092 | exactly the differences of the enums in order |
| SurfaceCheck.CompareMembers | crates/xtask/src/surface.rs:1069-1085 | exactly the differences of two maps of members: those wanted in the order of their names, then those found |
| SurfaceCheck.ProblemsDiffer | crates/xtask/src/surface.rs:865-1092 | the reported problems are those by which a declaration and the header differ, whatever their order |
| SurfaceCheck.NoneDiffers | crates/xtask/src/surface.rs:865-1092 | nothing differs if and only if prototypes and imports correspond one to one with mapped types, structs field by field and enums as maps with their underlying types, and only permitted imports skip the GC transition |
| EnumMirrors.MirrorHasNoProblem | crates/xtask/src/surface.rs:1026-1085 | a C# enum whose members are the variants without the name of the enum and an underscore before them, with their values, has no problem |
| EnumMirrors.NoEnumProblem | crates/xtask/src/surface.rs:1026-1092 | a header whose enums all have such mirrors, beside no other enums, has no problem of an enum |
| EnumMirrors.MissingMember | crates/xtask/src/surface.rs:1067-1076 | with one member left out exactly that is reported, with its value |
| EnumMirrors.OtherValue | crates/xtask/src/surface.rs:1067-1076 | with another value for one member exactly that is reported, with both values |
| EnumMirrors.MemberTooMany | crates/xtask/src/surface.rs:1077-1083 | with one member more exactly that is reported |
| EnumMirrors.UnderlyingIs | crates/xtask/src/surface.rs:847-853 | the underlying type is that of the first enum of the name, or `int` |
| SurfaceProblems.ImportsCounted | crates/xtask/src/surface.rs:871-888 | what is reported of a function that is not imported or imported twice |
| SurfaceProblems.OneParameter | crates/xtask/src/surface.rs:934-952 | what is reported of an import with one parameter |
| SurfaceProblems.ImportsWanted | crates/xtask/src/surface.rs:890-909 | what is reported of an import of no function and of one that skips the GC transition |
| SurfaceProblems.FieldsCounted | crates/xtask/src/surface.rs:955-981 | what is reported of a sequential struct with another number of fields |
| SurfaceProblems.FieldCompared | crates/xtask/src/surface.rs:982-1011 | what is reported of a field: its name, the length of its buffer and its type |
| SurfaceBlank.Blank | crates/xtask/src/surface.rs:220-323 | clears comments, directives and literals in place, or refuses conditional compilation at its line |
| SurfaceBlank.BlankedKeeps | crates/xtask/src/surface.rs:208-219 | the length is kept, line breaks are kept, every other character is kept or becomes a space |
| SurfaceLiterals.RegularIsCleared | crates/xtask/src/surface.rs:280-337 | a regular literal written from its characters and escapes is cleared exactly between its quotes, and blanking goes on after it |
| SurfaceLiterals.CharacterIsCleared | crates/xtask/src/surface.rs:312-337 | the same of a character literal |
| SurfaceLiterals.VerbatimIsCleared | crates/xtask/src/surface.rs:280-311 | a verbatim literal written from its contents is cleared exactly between its quotes if and only if the contents do not start with a quote |
| SurfaceLiterals.VerbatimMisread | crates/xtask/src/surface.rs:280-289 | a verbatim literal that is read on to the end of the text |
| SurfaceLiterals.RawIsCleared | crates/xtask/src/surface.rs:280-289 | a raw literal of any number of quotes from three on is cleared exactly between them |
| SurfaceLiterals.LineCommentIsCleared | crates/xtask/src/surface.rs:268-272 | a line comment is cleared to the end of its line |
| SurfaceLiterals.BlockCommentIsCleared | crates/xtask/src/surface.rs:273-279 | a block comment is cleared with its marks, over line breaks |
| SurfaceLiterals.ClearedIsBlank | crates/xtask/src/surface.rs:208-219 | of what is cleared only spaces and line breaks are left, so no brace, quote or semicolon in it reads as structure |
| SurfaceLiterals.LiteralsAreKept | crates/xtask/src/surface.rs:307-318 | where literals are kept the same is passed over and nothing of it cleared |
| SurfaceLiterals.OpenLiteralEnds | crates/xtask/src/surface.rs:328-337 | a literal that is not closed on its line ends with the line |
| SurfaceLiterals.DirectiveLine | crates/xtask/src/surface.rs:246-265 | a directive line is cleared, but `#if`, `#elif` and `#else` are refused with their line |
| SurfaceReader.ReadFile | crates/xtask/src/surface.rs:365-409 | blanks a file twice and reads its declarations |
| SurfaceReader.ReadDeclarations | crates/xtask/src/surface.rs:372-408 | the loop over brackets, terminators and the stack of containers |
| SurfaceReader.SplitAttributes | crates/xtask/src/surface.rs:416-470 | takes the attribute lists off a declaration |
| SurfaceReader.TopLevelCommas | crates/xtask/src/surface.rs:473-491 | the ranges between commas outside every bracket |
| SurfaceReader.ParameterList | crates/xtask/src/surface.rs:594-612 | the parentheses a declaration ends with |
| SurfaceReader.ReadImport | crates/xtask/src/surface.rs:634-685 | an import, no import, an unreadable one or a native method without its attribute |
| SurfaceReader.ReadField | crates/xtask/src/surface.rs:698-737 | a field or a fixed buffer of a sequential struct |
| ReaderForms.AttributeRead | crates/xtask/src/surface.rs:444-465 | an attribute with a target, a namespace, the suffix `Attribute` and arguments, or without, is its name and its arguments |
| ReaderForms.EntryPointRead | crates/xtask/src/surface.rs:688-695 | the symbol named by an import attribute, in any white space |
| ReaderForms.TypeOpened | crates/xtask/src/surface.rs:519-576 | what the head of a struct, a class, an interface or a record opens, and that an enum has to have a name |
| ReaderForms.ImportWritten | crates/xtask/src/surface.rs:634-685 | an import with any attributes and modifiers is its symbol, its result type and its parameters |
| ReaderForms.NativeWithoutAttribute | crates/xtask/src/surface.rs:616-652 | an `extern`, or a `static` and `partial`, method without an import attribute is refused, and any other passed over |
| ReaderForms.ParameterRead | crates/xtask/src/surface.rs:659-676 | a parameter is its type and its name without its default value |
| ReaderForms.FieldWritten | crates/xtask/src/surface.rs:698-737 | a field with any modifiers is its name and its type |
| ReaderForms.BracketedCommas | crates/xtask/src/surface.rs:473-491 | a comma within brackets of any of the four kinds separates nothing |
| Render.Render | crates/xtask/src/ffi_mirror.rs:1461-1536 | the text of the rendered lines, or the first type without a spelling |
| Render.XmlDoc | crates/xtask/src/ffi_mirror.rs:1416-1448 | a documentation comment of paragraphs |
| Documentation.XmlMeans | crates/xtask/src/ffi_mirror.rs:1408-1412 | escaped text stands for the text and holds no angle bracket, and no ampersand but of an entity |
| Documentation.SummaryWritten | crates/xtask/src/ffi_mirror.rs:1416-1438 | the comment of one paragraph is its summary, and that of none the fallback |
| Documentation.RemarksWritten | crates/xtask/src/ffi_mirror.rs:1416-1448 | the comment of more paragraphs has the others as remarks, in their order |
| Documentation.FileWritten | crates/xtask/src/ffi_mirror.rs:1461-1536 | the whole file of a struct with a field and of a function, line by line |
| TypeTexts.CsTypeText | crates/xtask/src/ffi_mirror.rs:1313-1389 | every type the map gives is one ordinary word, or words none of which a modifier can be, level in its brackets |
| ReadBack.AttributeRead | crates/xtask/src/surface.rs:444-465 | the text of an attribute is read as that attribute |
| MembersBack.FieldRead | crates/xtask/src/surface.rs:698-737 | a rendered field is read to its name and type and is no import |
| MembersBack.BufferRead | crates/xtask/src/surface.rs:698-737 | a rendered buffer is read to its name, element type and length |
| ImportsBack.ListRead | crates/xtask/src/surface.rs:659-676 | a rendered parameter list is read to its parameters, function pointers with commas included |
| ImportsBack.ImportRead | crates/xtask/src/surface.rs:634-685 | a rendered prototype is read to its symbol, types, names and attributes |
| HeadsBack.StructOpened | crates/xtask/src/surface.rs:519-576 | the head of a rendered struct opens a sequential struct of its name |
| EnumsBack.IntegerRead | crates/xtask/src/surface.rs:766-786 | a decimal or hexadecimal integer with a sign, separators and suffixes is read as its value |
| EnumsBack.MembersRead | crates/xtask/src/surface.rs:740-764 | members written out with and without values, in any white space and with or without a last comma, are read back with the values counted on, or with the first overflow |
| EnumsBack.CountedMeans | crates/xtask/src/surface.rs:740-764 | names are kept in order, an explicit value is its own, and an implicit one is the one before it plus one, or 0 |
| EnumFile.EnumFileRead | crates/xtask/src/surface.rs:365-409 | a file of an enum, with comments between its members, is read as that enum with its values counted, or as their first overflow |
| EnumFile.MirrorAndEnumAgree | crates/xtask/src/surface.rs:1145-1153 | the rendered mirror of a header with an enum and a file of that enum, without its name before the members, agree with the header: the comparison reports nothing |
| RenderedLines.RenderedRead | crates/xtask/src/surface.rs:220-409 | of rendered lines comments are cleared, code is untouched, and the reader goes from line to line |
| RoundTrip.RenderedIsRead | crates/xtask/src/ffi_mirror.rs:1461-1536 | the rendered text of a header is read back to one import for each prototype and one sequential struct for each struct, with the mapped types |
| RoundTrip.RenderedAgrees | crates/xtask/src/surface.rs:1145-1153 | beside enums that agree with the header's, what is read back agrees with the header: the comparison finds no problem |

## Left out

- The header reader after the preprocessor (`statements`, `classify`, `declaration` and what they call in `ffi_mirror.rs`): a header is a value here, and the mirror starts from it.
- Messages: errors and problems are values that hold what the message would name; their English text, `report` and the file and process handling around the tools are not modelled.
- Header.CsType: asks for an acyclic `typedef` table, as C does; on a cyclic one the source does not return.
- RoundTrip.RenderedAgrees: asks that names are identifiers of ASCII letters, digits and underscores, that no struct or enum has the name of one of the reader's modifiers, of `fixed` or of `const`, that no two structs and no two functions have one name, and that documentation lines hold no line breaks; beside such names the reader takes a type for a modifier, or a field for none.
- Surface: which characters outside ASCII are letters or digits (`char::is_alphanumeric`) is left open; everything is proved for any such set of characters that are not white space.
- SurfaceReader.ReadMembers: the negation of the least 128-bit integer, which panics in the source, is a plain negation.
- Preprocess: `is_defined` and the predefined macros are as in the source; recursion of an expression deeper than the machine's stack is not modelled.
- StatusChannel: each atomic operation is one step of a total order; weaker memory orders, the mutex around the details and Node's own threads behind the queue are not modelled, and Node may refuse any call.
- StatusChannel: the kinds and texts of events (`describe`, `arguments`) are left out.
- Staging: one isolate; slot numbers are naturals (the conversion of JavaScript numbers, field-line parsing and status ranges are one flag); what the core knows of a slot is arbitrary at each look, and an allocator may give any address that no owned block has.
- Base64.DecodeSlice: does not state what the buffer holds after a failed decoding.
- Base64: the two tables are given by their ranges of characters; the `std::io::Error` conversion is left out.
- Tls.Refragment: asks for a size other than 0 and for fragments of less than 65536 octets, since the source panics on others.
- EnumsBack.MembersRead: the members have no attribute lists; the reader takes them, but what is written here has none.
- EnumFile.MirrorAndEnumAgree: the header has one enum, and its file holds nothing else.
- The rest of the fuzz target (`handshake_payload`, `record_before_hello`, `required_alerts` and the comparison with the listener's own reader): that reader, `crates/zero-tls/src/hello.rs`, is not part of this model.
- Features: the table of features is a map; reading `Cargo.toml` and the bundle comparison around it are left out.
- Regions: `snippet` and `extract`, which produce rendered text, are left out; a renderer is any function.
- Wrap: `doc_lines`, which joins the wrapped paragraphs of a text with an empty line between two, is left out.
- Release: `cargo metadata`, publishing and its retries are left out.
