# The legacy Go client's hard algorithms, verified

This project models the algorithms of the legacy Go OpenAPI client (`go/openapi`) whose correctness is not seen by
reading one function, and proves what their comments promise. Each module follows one part of the client; the code that
updates fields, stacks or buffers step by step is written as classes and loops, proved against functions that say what
it is for, and what the client promises is then proved of those functions.

**Schema graph.** `Schemas`, `ShapeWalk`, `ShapePops`, `ShapeTrack` and `Documents` are the memoised walk that finds
what every schema reachable by `$ref` and `allOf` says together (Tarjan's strongly connected components, without
recursion). A document is a finite list of schemas, each with what it says itself and an ordered list of the schemas it
names; other calls may publish shapes between any two steps of a walk. `Closure` is the depth-first walk over the kids
that shapes keep, and why walking only those changes nothing. `Chain`, `Defaults` and `DefaultSets` are the default
media types along a chain of items, with Brent's cycle detection. `Bundles` and `BundleWalk` are the second Tarjan walk,
which records as seen only reference targets. `Follow` is the following of Reference Objects, `FollowPaths` where it
leads along every path of them, and `FollowMemo` the memoised walk.

**Uploads.** `Upload` is the upload of a request body as a state machine: a step is what one thread does while it holds
the lock, or one reading of a source outside it, and steps of any threads come in any order. `UploadRuns` states what
holds over every run, and takes the code of each locked section, as methods on the shared fields, to those steps;
`UploadResults` tells from the steps of a run alone whether the upload succeeds, or which step it fails for. `Items` is
the iterator body, whose `next` and `stop` must not overlap. One `Read` at a time of each generation is assumed, as
`io.Reader` requires, and no hand-over after the chain has returned, as `net/http` gives.

**Streams.** `Framing` is the buffered reader, over any sequence of non-empty chunks; `EventStream` the reading of
server-sent events (section 9.2.5 of the HTML Standard, with the client's rule of what dispatches); `EventBlocks` what
that comes to for a whole text, block by block and line by line; `EventLines` and `EventTexts` what streams say by how
they are written, every text being one; `EventPrint` their printing and the round trip; `JsonSequence` the reading and
printing of JSON text sequences (RFC 7464), and `JsonRecords` what is read of every sequence of JSON texts. Whether
bytes are JSON text, and how malformed UTF-8 is replaced, are arbitrary functions.

**Multipart bodies.** `Delimiters` says what holds a delimiter and splits at it (section 5.1.1 of RFC 2046), `Seams` is
the cursor over a body's sources with its matcher across reads, `Multipart` what is written and that it splits back, and
`MultipartWriter` the writer.

**Documents.** `JsonNumbers`, `JsonScalars` and `JsonGrammar` are the grammar of RFC 8259 as what it writes, and that
the reader reads just that. `JsonText` is that reader as a recursive function, `JsonScan` the scanner that fills the
array of values, `JsonRefs` the objects it records, `JsonTree` what is found again in that array, `JsonOrder` the order
of the strings it notes and `JsonPrint` the round trip. `Yaml` says what a YAML document means to its writer,
`YamlOutput`, `YamlWriter` and `YamlTree` are that writer, which copies what an alias names; `YamlBounds` says what it
accepts, `YamlAliases` that its meaning is that of the document with each alias read as the node it names,
`YamlReadings` that its text reads back as the document, and how large that may be, and `YamlRefs` that what it records
is what reading its text would. `YamlOctal` and `YamlNumbers` are the numbers of the Core schema.

**Serialisers.** `Collections` is the recursive definition of Swagger collection parameters and `CollectionWriter` the
writer that begins the levels around a value only when there is one; `CollectionReads` takes apart what is written.
`Keys` is the key of a security requirement, and `KeyStrings` says what its strings are.

`Reach`, `Stacks`, `Sequences`, `Ascii` and `Wrappers` hold what several modules need: reachability, stacks of indices,
reassociation of sequences, bytes, and optional values.

`dafny verify dfyconfig.toml` checks the whole project.

Two things the code does are stated as they are, although its comments say more. The comment on `defaults` promises all
schemas of a cycle one set, and the same one no matter which of them is resolved first. The set does not depend on that
if and only if the untyped defaults around the cycle agree, or are given by the types anyway
(`Defaults.WhicheverFirst`); `Defaults.EditionsDiffer` is a cycle of two editions for which they do not. Calls that do
not overlap leave every cycle with one set, decided by the first (`DefaultSets.FirstDecides`); calls that do may leave
such a cycle two (`DefaultSets.CallsRace`). And printing a JSON item gives back the item with the line end after it, as
the record includes it.

## Model

| member | source | states |
|---|---|---|
| Schemas.OwnSays | go/openapi/fields.go:232-240 | A schema alone is summed up by its own keywords: its types, flags and items, and it differs from no other. |
| Schemas.MeetSeveral | go/openapi/fields.go:232-240 | After a merge `several` holds exactly when two schemas of the two sets together declare different items, whichever side an items schema came from. |
| Schemas.MeetSays | go/openapi/fields.go:232-240 | If two shapes are what two sets of schemas say (types all allow, whether any is typed, encoded or declaring, an items schema, whether two differ), their merge is what the union says, the sets overlapping or not. |
| Schemas.RightDeclares | go/openapi/fields.go:358-362 | A right shape declares exactly when a declaring schema is reachable by `$ref` and `allOf`. |
| ShapeWalk.StartWalking | go/openapi/fields.go:365-381 | The walk that has entered one schema satisfies the invariant of the walk. |
| ShapeWalk.AdvanceWalking | go/openapi/fields.go:384-387 | Consuming the next schema named keeps the invariant, and what is consumed is as it was named although the list is filtered in place. |
| ShapeWalk.AppendCounted | go/openapi/fields.go:391-393 | Keeping the kid just consumed leaves the kept prefix equal to the declaring kids consumed so far, in order, provided it declares whenever the node does. |
| ShapeWalk.AbsorbSpoken | go/openapi/fields.go:389-393 | Merging a published shape extends what a node speaks of by exactly what that kid reaches, still whole sets of schemas that reach only each other. |
| ShapeWalk.AbsorbWalking | go/openapi/fields.go:389-393 | Taking a published shape keeps the invariant. |
| ShapeWalk.OpenReachesTop | go/openapi/fields.go:394-395 | A schema visited and not published is open, and reaches the schema on top of the path: so it is of its cycle. |
| ShapeWalk.SameDeclares | go/openapi/fields.go:394-395 | Schemas that reach each other declare alike, which is why a kid of the cycle may be kept before the cycle is known. |
| ShapeWalk.TakeWalking | go/openapi/fields.go:394-395 | Lowering `low` to an open kid keeps the invariant. |
| ShapeWalk.EnterWalking | go/openapi/fields.go:396-398 | Entering a schema not seen before keeps the invariant. |
| ShapePops.TopReachesBelow | go/openapi/fields.go:413-416 | A top whose `low` is below it reaches the schema under it on the path. |
| ShapePops.MergeWalking | go/openapi/fields.go:413-416 | Merging the top into the one below, with its `low`, keeps the invariant. |
| ShapePops.CycleConnected | go/openapi/fields.go:417 | When `low` is the top itself, all that is open from it on reaches it and is reached from it. |
| ShapePops.CycleClosed | go/openapi/fields.go:417-421 | What the shapes of that cycle speak of together is closed under the edges. |
| ShapePops.CycleFrom | go/openapi/fields.go:417-421 | So every schema of the cycle reaches exactly that set. |
| ShapePops.CycleRight | go/openapi/fields.go:422-431 | The shape published for each schema of the complete cycle is right: merged facts over exactly what it reaches, and its own declaring kids in document order. |
| ShapePops.CompleteWalking | go/openapi/fields.go:432-437 | Dropping the complete cycle keeps the invariant, and what the one below consumed last is the schema just completed. |
| ShapeTrack.TrackEnter | go/openapi/fields.go:377-381 | Entering keeps the stacks and the map of the code in step with the invariant's sets. |
| ShapeTrack.TrackMerge | go/openapi/fields.go:408-416 | So does leaving a top of the same cycle as the one below. |
| ShapeTrack.TrackComplete | go/openapi/fields.go:417-437 | So does completing a cycle: cutting `open` at the top's place removes exactly the cycle. |
| ShapeTrack.NodesBounded | go/openapi/fields.go:365-439 | A schema is entered once at most, so a walk enters no more than there are. |
| Documents.LeafRight | go/openapi/fields.go:340-344 | The own shape of a schema that names none is its right shape. |
| Documents.SpokenRight | go/openapi/fields.go:336-353 | When the shapes of all kids were met, the result speaks of all that is reached. |
| Documents.Document.Keep | go/openapi/fields.go:358-362 | Publishing a right shape keeps all published right and returns the one published, the other caller's if it was first. |
| Documents.Document.ShapeOf | go/openapi/fields.go:331-354 | Returns the published shape of the schema, which is right, whatever was published before and whatever other calls publish during it. |
| Documents.Document.CycleSays | go/openapi/fields.go:418-421 | The merge over the open nodes of the cycle says exactly what they speak of together. |
| Documents.Document.Complete | go/openapi/fields.go:422-431 | Publishes a right shape for every node of the cycle and returns that of the top. |
| Documents.Document.NextKid | go/openapi/fields.go:384-407 | The top consumes the next schema it names: it takes a published shape, an open node, or is to enter it, and the invariant is kept. |
| Documents.Document.LeaveTop | go/openapi/fields.go:408-438 | The top leaves the path, merged or with its cycle published, and the invariant is kept; a path then empty has the answer. |
| Documents.Document.Walk | go/openapi/fields.go:365-439 | For every finite graph, cycles included, terminates with the right shape of the schema, every shape published on the way being right, with other walks publishing between any two steps. |
| Closure.VisitsPreorder | go/openapi/fields.go:444-477 | A walk with an explicit stack visits exactly the recursive depth-first preorder. |
| Closure.VisitsSound | go/openapi/fields.go:444-477 | It visits each schema once, and only what the list reaches. |
| Closure.VisitsComplete | go/openapi/fields.go:444-477 | What it has visited is closed under the edges. |
| Closure.VisitsAll | go/openapi/fields.go:444-477 | It visits everything the list reaches. |
| Closure.LeadsNowhere | go/openapi/fields.go:444-477 | A schema that reaches no declaration names none that does. |
| Closure.PruningKeeps | go/openapi/fields.go:444-477 | Walking the kept kids and walking all of them visit the same schemas that lead to a declaration, in the same order, from any lists and seen sets that agree on those. |
| Closure.PushAll | go/openapi/fields.go:449-452 | Pushing a list last first puts it, in order, before what was pending. |
| Closure.Walk | go/openapi/fields.go:444-477 | Calls back exactly the visits of the pruned graph that are not hidden, in order, absent schemas left out. |
| Closure.WalkCalls | go/openapi/fields.go:444-477 | Those calls hold, of the schemas declaring properties or items, exactly the full preorder's, each once and in its order; every reachable declaring schema is called and nothing unreachable is. |
| Chain.Pigeonhole | go/openapi/fields.go:602-629 | A chain over n states that does not end repeats one of its first n + 1. |
| Chain.LateOnCycle | go/openapi/fields.go:602-629 | After n steps a chain still going is on its cycle, of period at most n. |
| Chain.CycleBack | go/openapi/fields.go:630-639 | Each state of a cycle leads to each. |
| Chain.SharedPeriod | go/openapi/fields.go:612-617 | A state that recurs at all, on a chain that recurs after n, does so after n itself. |
| Defaults.GivenStep | go/openapi/fields.go:640-643 | A media type is given along a chain exactly if its first state gives it or the rest of the chain does. |
| Defaults.EnteredStep | go/openapi/fields.go:630-639 | A tail has the untyped default of its cycle's entry exactly if its next state does. |
| Defaults.WhicheverFirst | go/openapi/fields.go:582-591 | What a state may be given is its chain's types with the untyped default of any state of its cycle; that is one set, whichever schema is resolved first, if and only if those untyped defaults agree or the types give them anyway. |
| Defaults.OneEditionAgrees | go/openapi/fields.go:556-561 | A chain whose schemas share one edition meets that condition. |
| Defaults.EditionsDiffer | go/openapi/fields.go:556-561 | Two array schemas of different editions, each the items of the other, do not meet it: the first may have the default of either. |
| Defaults.UntypedAround | go/openapi/fields.go:630-639 | Where the untyped defaults agree, one that the types do not give is that of every state of the cycle. |
| Defaults.RightStep | go/openapi/fields.go:640-643 | A set that the state of the items may be given, with what a state gives itself, is one it may be given. |
| Defaults.MeaningRight | go/openapi/fields.go:630-643 | The recursive meaning, with the untyped default of where the chain enters its cycle, is one of them. |
| Defaults.RightMeaning | go/openapi/fields.go:582-591 | Where the untyped defaults agree it is the only one. |
| Defaults.MeaningStep | go/openapi/fields.go:640-643 | Off a cycle, a state's set is what it gives with that of its items. |
| DefaultSets.Entry | go/openapi/fields.go:612-617 | The loop after a repetition finds the exact entry of the cycle: the first state on it. |
| DefaultSets.BrentBound | go/openapi/fields.go:622-624 | While nothing has recurred, the path is at most 3n + 2 long: Brent's loop terminates. |
| DefaultSets.CycleSets | go/openapi/fields.go:630-639 | The union over the cycle and the untyped default of its entry is a set of each of its states, and the meaning of the entry. |
| DefaultSets.UniformCycle | go/openapi/fields.go:630-639 | Keeping one set of every state of a cycle of which none is kept leaves each cycle with one set. |
| DefaultSets.Sets.KeepSet | go/openapi/fields.go:663-669 | Keeps a right set of a state unless one is kept, which then stays; all kept stay right. |
| DefaultSets.Sets.KeepCycle | go/openapi/fields.go:630-639 | Every state of the cycle has a set kept then, and the result is the meaning of the entry; where none was kept and no other calls run, it is that one set for all of them. |
| DefaultSets.Sets.Looped | go/openapi/fields.go:612-639 | From the repetition to the path before the cycle, from which what the cycle gives leads back to a set of the first state. |
| DefaultSets.Sets.Follow | go/openapi/fields.go:602-629 | Follows the chain to a kept set, its end, OpenAPI 3.2 items, or a cycle, and terminates. |
| DefaultSets.Sets.Defaults | go/openapi/fields.go:592-645 | For every document, memo and other calls: the set is one the state may be given, so the recursive meaning wherever the untyped defaults of its own cycle agree. Without other calls, where nothing was kept of the chain it is the meaning however they disagree, and a cycle keeps one set. |
| DefaultSets.FirstDecides | go/openapi/fields.go:582-591 | Of a cycle, agreeing or not, the schema asked first decides the set, and any asked next has that one. |
| DefaultSets.CallsRace | go/openapi/fields.go:582-591 | Two calls at once on a cycle of two editions may leave it two sets: each keeps its own schema's before the other does. |
| Follow.LeastAlong | go/openapi/index.go:867-872 | From anywhere on a chain into a cycle, the least reference of the cycle is the same. |
| Follow.LeastOfCycle | go/openapi/index.go:867-872 | The minimum over the walked references from the first recurrence on is the least reference of the cycle. |
| Follow.DescribeStep | go/openapi/index.go:893-899 | Where a Reference Object leads, with its description, is where its target leads before that description is set. |
| Follow.CycleNamedAlike | go/openapi/index.go:843-848 | Any two chains into one cycle fail alike, naming the same reference. |
| Follow.WalkedStep | go/openapi/index.go:873-891 | A Reference Object walked fails for all of the chain, or leads on to the next. |
| FollowPaths.EndsAt | go/openapi/index.go:849-901 | Along any path to a target the result is the node at its end, the Source its last reference gives, and the description of the first node on the way that is of 3.1 or later and has one, or else the target's, or none; along one to a failure, that failure. |
| FollowPaths.Circles | go/openapi/index.go:867-872 | Along any path that comes back to a node, the result is the error of the least node between the two. |
| FollowPaths.ResolveLeads | go/openapi/index.go:849-901 | So the recursion leads where every path from a node does. |
| FollowPaths.PathExists | go/openapi/index.go:854-892 | From every node some path ends at a target or a failure, or comes back. |
| FollowMemo.References.LoadOrStore | go/openapi/index.go:897-898 | Keeps a right resolution, or returns the one kept, which is the same. |
| FollowMemo.References.Walk | go/openapi/index.go:854-892 | Walks to what is kept, the target, a failure or a cycle, and terminates; the switch to a set of ids after 16 makes no difference. |
| FollowMemo.References.Follow | go/openapi/index.go:849-901 | Equals the unmemoised recursive definition for every state of the memo, and so leads where the paths do. |
| Bundles.HoldsKid | go/openapi/fields.go:840-906 | An object holding one that leads to such a value leads to it. |
| Bundles.NoneHeld | go/openapi/fields.go:892-903 | Objects that hold no such value and only each other, or objects leading to none, lead to none. |
| Bundles.StartWalking | go/openapi/fields.go:849 | The walk that has pushed one object satisfies its invariant. |
| Bundles.AdvanceWalking | go/openapi/fields.go:852-854 | Consuming the next kid keeps the invariant. |
| Bundles.TakeWalking | go/openapi/fields.go:863-866 | A reference target already being read lowers `low` and keeps the invariant. |
| Bundles.PushWalking | go/openapi/fields.go:878-885 | Reading an object that holds others in turn keeps the invariant, Encoding Objects not being recorded as seen. |
| Bundles.ComponentHoldsNone | go/openapi/fields.go:892-903 | No object of a complete component leads to such a value. |
| Bundles.PopWalking | go/openapi/fields.go:887-903 | Leaving the top, its component popped if complete, keeps the invariant. |
| BundleWalk.WorkAdvance | go/openapi/fields.go:850-906 | Reading a kid costs one step and the steps of the kid, unless it is a target. |
| BundleWalk.HitHolds | go/openapi/fields.go:946-953 | Once a value is found, every object on the path leads to it. |
| BundleWalk.PopLess | go/openapi/fields.go:887-905 | Leaving the top leaves less to do. |
| BundleWalk.HoldsIs | go/openapi/fields.go:814-826 | An object leads to such a value exactly if it holds one or one of what it holds or refers to does. |
| BundleWalk.Document.Keep | go/openapi/fields.go:1032-1034 | Keeps a true answer; all kept stay true. |
| BundleWalk.Document.Found | go/openapi/fields.go:946-953 | Keeps true for exactly the path's objects that are to be kept, all of which lead to the value found. |
| BundleWalk.Document.PopComponent | go/openapi/fields.go:892-903 | Pops exactly the component and keeps false for those of it that are to be kept. |
| BundleWalk.Document.ScanKid | go/openapi/fields.go:867-885 | Reads what the kid holds: a hit, nothing, or an object to read in turn, with less left to do. |
| BundleWalk.Document.ReadKid | go/openapi/fields.go:852-886 | The next kid is known, being read, or scanned. |
| BundleWalk.Document.LeaveTop | go/openapi/fields.go:887-903 | Leaves the top; a path then empty means that nothing reached is such a value. |
| BundleWalk.Document.Run | go/openapi/fields.go:840-906 | Answers exactly whether what was read leads to such a value, terminates although only reference targets are seen, and keeps only true answers, whatever was kept before and is kept meanwhile. |
| BundleWalk.Document.HoldsBundled | go/openapi/fields.go:814-826 | Answers exactly whether a value given by reference is reachable over containment and reference edges. |
| Upload.StepKeeps | go/openapi/response.go:80-148 | Every step of every thread keeps the invariant: `open` counts what is handed and not ended, a generation ends only closed with nothing in flight, and publication only after all ended. |
| Upload.RunKeeps | go/openapi/response.go:80-148 | So it holds in every reachable state of every interleaving. |
| Upload.HandKeeps | go/openapi/response.go:104-114 | Handing a generation over, even one already ended, keeps the invariant. |
| Upload.EndKeeps | go/openapi/response.go:118-129 | Ending a generation that is closed with nothing in flight keeps it. |
| Upload.ReadEndKeeps | go/openapi/response.go:770-780 | The end of a Read, which ends a generation closed meanwhile, keeps it. |
| Upload.CloseEndKeeps | go/openapi/response.go:824-831 | The end of a Close, which ends a generation not being read, keeps it. |
| Upload.SettleKeeps | go/openapi/response.go:177-201 | The steps of `settle` keep it: the list it closes covers what no one has closed. |
| Upload.EndingKeeps | go/openapi/response.go:118-129 | An end where one is due, closed and with nothing in flight, restores the invariant. |
| Upload.DueKeeps | go/openapi/response.go:133-148 | So does a publication where one is due. |
| UploadRuns.StepLater | go/openapi/response.go:80-148 | No step undoes an end, a close, a hand-over, publication or its result. |
| UploadRuns.RunLater | go/openapi/response.go:80-148 | Nor does any run. |
| UploadRuns.OpenCounts | go/openapi/response.go:92-98 | In every state of every run `open` is the number of generations handed and not ended, and one ended is closed with no Read and no Close in flight. |
| UploadRuns.NoReadAfterEnd | go/openapi/response.go:728-734 | Once a generation has ended, no later step of the run reads its source. |
| UploadRuns.PublishedOnce | go/openapi/response.go:133-148 | A published result is published only after the chain returned with `open` zero, and neither it nor the generations handed over change after. |
| UploadRuns.NilMeansComplete | go/openapi/response.go:122-124 | A nil result means the last generation handed over gave its declared length, or that its source ended. |
| UploadRuns.SettledUnread | go/openapi/response.go:177-201 | `settle` returns only after publication, and from then on no generation handed over is being read. |
| UploadRuns.SettleProgress | go/openapi/response.go:177-201 | Once it has closed what it listed, `settle` waits for nothing but Reads and Closes in flight. |
| UploadRuns.FetchChecked | go/openapi/response.go:787-806 | The length check passes an end only at the declared length, and no more bytes than it. |
| UploadResults.RunTold | go/openapi/response.go:728-800 | In every state of every run what a generation has given, whether it is closed, and the outcome of its reading are those the steps so far tell. |
| UploadResults.EndedResult | go/openapi/response.go:118-129 | The result of an ended generation is that of the first step that decided its reading: an answer of the source (a failure, too many bytes, too few at its end, its end, or the declared length for the client's own body), or a Read that met a canceled call; where none did, none at exactly the declared length and closed early otherwise. |
| UploadResults.OrderTold | go/openapi/response.go:104-114 | Of the generations handed over, the last is the one whose first hand-over came last. |
| UploadResults.PublishedResult | go/openapi/response.go:133-148 | What is published is that result of the generation handed over last, and nil if none was. |
| UploadResults.SucceedsIf | go/openapi/response.go:116-141 | An upload succeeds if and only if the reading of its last generation was completed, or was not decided and gave exactly the declared length. |
| UploadResults.CompletesAtLength | go/openapi/response.go:782-786 | A generation closed with just its declared length given completes the upload, if no answer of the source failed and no Read met a canceled call. |
| UploadResults.FailsFor | go/openapi/response.go:116-141 | An upload fails with an error if and only if a step caused it: the source's failing answer with that error, a Read that met a canceled call, or, where nothing decided the reading, a close at other than the declared length. |
| UploadRuns.Exchange.Hand | go/openapi/response.go:104-114 | The locked section is the hand-over step and keeps the invariant. |
| UploadRuns.Exchange.End | go/openapi/response.go:118-129 | Ends as the step does, once, as `UploadResults.EndedResult` says it must; from any state where all but the generation to end is as the invariant says, and that one is closed with nothing in flight, the invariant holds again. |
| UploadRuns.Exchange.Publish | go/openapi/response.go:133-148 | Publishes as the step does; and from any state of the invariant but for a publication due, the invariant holds again. |
| UploadRuns.Exchange.Return | go/openapi/response.go:130-136 | The return of the chain, which may publish, keeps the invariant. |
| UploadRuns.Exchange.ReadBegin | go/openapi/response.go:755-768 | A Read is refused when closed, or with the result of what finished before it, canceled among them; an end returned means the generation is complete. |
| UploadRuns.Exchange.Fetch | go/openapi/response.go:787-806 | Takes bytes from the source under the length check; an end means complete. |
| UploadRuns.Exchange.ReadEnd | go/openapi/response.go:770-781 | Ends the Read in flight, and the generation if it was closed meanwhile and is not closing. |
| UploadRuns.Exchange.CloseBegin | go/openapi/response.go:811-819 | The first Close marks the generation; a later one does nothing. |
| UploadRuns.Exchange.CloseEnd | go/openapi/response.go:824-831 | Ends the generation unless a Read is in flight. |
| UploadRuns.Exchange.Open | go/openapi/response.go:185-193 | Lists exactly the generations handed over that are not closed, the last first. |
| Items.RunKeeps | go/openapi/sequential.go:344-433 | In every interleaving of Reads, Closes and halts, one halts only a closed body with no Read in flight. |
| Items.StoppedOnce | go/openapi/sequential.go:344-433 | The iterator is stopped at most once, never while its `next` runs, and its `next` never runs after. |
| Items.ClosedStops | go/openapi/sequential.go:413-433 | A closed body with no Read and no halt left has stopped its iterator, if it started. |
| Framing.Index | go/openapi/framing.go:76-81 | The first occurrence of a byte, or the length. |
| Framing.FirstBounds | go/openapi/framing.go:53-101 | The first byte that ends a frame ends it, and none before does. |
| Framing.FirstSplit | go/openapi/framing.go:53-101 | Where nothing so far ends the frame, the first end of the whole is that of the piece, past what was read. |
| Framing.FrameReader.Fill | go/openapi/framing.go:27-48 | Has a byte to read unless all is read, and what is to be read is unchanged. |
| Framing.FrameReader.Find | go/openapi/framing.go:61-82 | Finds the first end of the frame in the buffer, and keeps the cached CR stale or the first at or after the read position. |
| Framing.FrameReader.Piece | go/openapi/framing.go:83-99 | One buffer of a frame: ended, too long, or all of it so far. |
| Framing.FrameReader.Until | go/openapi/framing.go:53-101 | The next frame is that of all that is still to be read, however it is cut into reads: found, unended or over the bound. |
| EventBlocks.LineRead | go/openapi/framing.go:326-409 | Reading one line spends of the bound what the text has up to past it, the LF of a CRLF counted only after a line not empty. |
| EventBlocks.BlockIs | go/openapi/framing.go:321-410 | From any line of a block on, the reader finds the block too long exactly if what it spent and what is left of the block exceed the bound, and else its event. |
| EventBlocks.BlocksAre | go/openapi/framing.go:321-410 | Of any text, at any bound, a reader has the events of the blocks before the first too long, and meets one exactly if some block is. |
| EventBlocks.ParsesBlocks | go/openapi/framing.go:321-410 | The events of a text's lines are those of its blocks that an empty line ends, block by block. |
| EventBlocks.FirstEvents | go/openapi/framing.go:321-410 | The events before the first block too long are the first of them, and all if none is. |
| EventBlocks.BlockTrims | go/openapi/framing.go:339-350 | A leading byte order mark is dropped, once, and not counted. |
| EventBlocks.TextParses | go/openapi/framing.go:321-410 | For every text and bound the events read are a prefix of those of the text's lines (CRLF, LF or CR, its leading byte order mark left out): exactly those before the first block whose lines with their ends exceed the bound; too long if and only if there is one, and all events if there is none. |
| EventLines.LineOf | go/openapi/framing.go:367-377 | Every line is a name, a colon or none, a space after it or none, and a value. |
| EventLines.OneWay | go/openapi/framing.go:367-377 | In one way only. |
| EventLines.Read | go/openapi/framing.go:367-377 | The name and the value read are those written: without a colon no value, and one space after it left out. |
| EventLines.Said | go/openapi/framing.go:378-405 | What one line makes of the fields: data goes on a line of its own, event replaces, id replaces but with a NUL byte, retry replaces if all digits, and anything else, a comment among it, changes nothing. |
| EventLines.LinesMean | go/openapi/framing.go:357-406 | Of any lines, data is all values of data lines joined by LF, event and id and retry those of the last line that counts, retry its number without leading zeros; a field is absent if and only if no line counts. |
| EventTexts.LinesWritten | go/openapi/framing.go:326-356 | Lines ended by LF, CR LF or a CR that no LF follows are read one by one. |
| EventTexts.PiecesWritten | go/openapi/framing.go:321-410 | Blocks so written, each ended by an empty line, are read block by block. |
| EventTexts.StreamSays | go/openapi/framing.go:321-410 | The events of a text are those the lines of its blocks mean, blocks that set no field left out, up to the first longer than the bound. |
| EventTexts.StreamOf | go/openapi/framing.go:321-410 | Every text is so written, with a leading byte order mark or without. |
| EventStream.EventReader.PassLF | go/openapi/framing.go:326-335 | Reads past the LF of a CRLF, counting it only after a line not empty. |
| EventStream.EventReader.Line | go/openapi/framing.go:336-356 | The next line, without a byte order mark that begins the stream. |
| EventStream.EventReader.Next | go/openapi/framing.go:321-410 | The next event, the end, or a block too long, as the bytes say. |
| EventStream.EventReader.All | go/openapi/framing.go:321-410 | All events, and whether one is too long, as the bytes say. |
| EventTexts.Read | go/openapi/framing.go:321-410 | The same whatever chunks deliver the text; and for every way the text is written as a stream of blocks, the events are those the lines of the blocks before the first too long mean. |
| EventPrint.AppendData | go/openapi/sequential.go:276-291 | Appends one `data` field per line of the text, whichever of the three line ends it has. |
| EventPrint.AppendEvent | go/openapi/sequential.go:197-259 | Appends the lines of the event exactly when it can be encoded: event and id of one line, no NUL byte in id, a retry of whole milliseconds. |
| EventPrint.ApplyData | go/openapi/framing.go:380-392 | Reading data lines joins what they hold with LF. |
| EventPrint.EventApplies | go/openapi/sequential.go:197-228 | The printed lines of an encodable event set exactly its fields. |
| EventPrint.EventPlain | go/openapi/sequential.go:264-291 | Each printed line is one line, and not empty. |
| EventPrint.BlockLines | go/openapi/framing.go:321-410 | A block of non-empty lines is too long exactly if its lines, each with its end, exceed the bound. |
| EventPrint.EventReads | go/openapi/framing.go:321-410 | One printed event, read before anything that follows it, at the start of the stream or not. |
| EventPrint.StreamReads | go/openapi/sequential.go:190-259 | Reading what was printed of any list of encodable events gives those that set a field, in order, up to the first longer than the bound. |
| EventPrint.NumberDecimal | go/openapi/sequential.go:224-226 | A number printed in decimal is read back. |
| EventPrint.EventReturns | go/openapi/framing.go:412-423 | An event read back is the one sent, its data's line breaks LF and what is not set empty. |
| EventTexts.SplitMixed | go/openapi/sequential.go:276-291 | Text to send is taken apart at its line ends of all three kinds, and nowhere else. |
| JsonSequence.StopSplit | go/openapi/framing.go:142-174 | The lexer stops in a text where it stops in its first piece, or, lexed on, in the rest. |
| JsonSequence.LineRecord | go/openapi/framing.go:126-139 | A buffered single line followed by RS is that record, RS or LF ending it: the fast path agrees with the scan. |
| JsonSequence.NormalNext | go/openapi/framing.go:259-298 | Whether the RS after a record ended at its LF has been read past makes no difference to what follows. |
| JsonSequence.Scan | go/openapi/framing.go:141-174 | Finds in the buffer the first byte that may end the record, and what is lexed before it. |
| JsonSequence.PieceIs | go/openapi/framing.go:175-194 | Where one buffer may end a record, the record of the whole ends there, if the text so far is JSON where LF ends it. |
| JsonSequence.RecordReader.Quick | go/openapi/framing.go:126-139 | The fast path reads the record of all that is to be read, or nothing. |
| JsonSequence.RecordReader.Piece | go/openapi/framing.go:125-194 | One buffer of a record: ended, too long, or all of it so far. |
| JsonSequence.RecordReader.JsonRecord | go/openapi/framing.go:117-196 | Reads the record of all that is to be read, however it is cut into reads. |
| JsonSequence.RecordReader.Between | go/openapi/framing.go:260-279 | What is before the first RS, or after the LF that ended a record: data outside a record, the end, or neither. |
| JsonSequence.RecordReader.NextItem | go/openapi/framing.go:259-298 | The next record, item error or end is as the bytes and the bound say. |
| JsonSequence.RecordReader.All | go/openapi/framing.go:259-298 | So is all that is read. |
| JsonRecords.Read | go/openapi/framing.go:259-298 | Items and item errors depend on the bytes, the bound and the end alone, never on how reads cut them; and for a sequence of JSON texts they are what `SequenceRead` says. |
| JsonSequence.NextRecordIs | go/openapi/framing.go:280-297 | What a frame makes of the next record: item, truncated scalar, end, or the next frame when it is empty. |
| JsonSequence.ItemRecord | go/openapi/sequential.go:125-160 | A printed item none of whose lines ends outside a value is one record. |
| JsonSequence.PrintReads | go/openapi/sequential.go:111-161 | Printing such items and reading the sequence gives each back, then the end. |
| JsonRecords.ValueThrough | go/openapi/framing.go:142-174 | However many lines a JSON value is written over, the lexer lets no line of it end the record. |
| JsonRecords.JudgedAs | go/openapi/framing.go:300-311 | Valid text, after space or not, that starts with a minus, a digit, `t`, `f` or `n` and ends in no space may have been cut; any other is an item. |
| JsonRecords.CutIs | go/openapi/framing.go:300-311 | Where what is valid is JSON, a record is taken for a scalar that may have been cut if and only if it is space and a number or literal. |
| JsonRecords.RecordOf | go/openapi/framing.go:117-196 | A JSON text's record is the text up to the first line end after its value, or to the RS or the end. |
| JsonRecords.PartRead | go/openapi/framing.go:259-298 | What is read of one part of a sequence, and on: its item or item error, then what is after its line. |
| JsonRecords.SequenceRead | go/openapi/framing.go:259-298 | For every sequence of JSON texts, bound and end: each is an item, or an item error if it may have been cut; data before the first RS or after a text's line is an error of its own; nothing is read past what is too long, and no record in which the source failed. |
| JsonRecords.ValuesRead | go/openapi/sequential.go:111-161 | Any JSON values printed as a sequence are read back. |
| Delimiters.BoundaryOneLine | go/openapi/body.go:815-822 | A valid boundary has no CR and no LF. |
| Delimiters.BoundaryIs | go/openapi/body.go:815-822 | A boundary is valid if and only if it is 1 to 70 letters, digits and the marks of RFC 2046, the last no space. |
| Delimiters.HoldsUnclean | go/openapi/body.go:791-798 | The check of a whole line finds something exactly if the data holds, after CR or LF or at its start, a delimiter of one of the boundaries. |
| Delimiters.OccursSeam | go/openapi/body.go:785-787 | What has no line break but at its start and occurs across a line end occurs in one of the two, or starts with that break. |
| Delimiters.CleanJoin | go/openapi/body.go:785-787 | One line after another holds a delimiter only if one of them does. |
| Delimiters.FindIs | go/openapi/body.go:785-787 | The search finds the first occurrence. |
| Delimiters.SplitPiece | go/openapi/body.go:785-787 | Content that holds no delimiter is split off whole at the delimiter written after it. |
| Seams.SeamContains | go/openapi/body.go:216-225 | Searching the tail with a little of the data, and the data, finds exactly what occurs in both together. |
| Seams.TailExact | go/openapi/body.go:215-232 | The kept end of what was read is enough: a pattern occurs in all read so far exactly if it did before or is found now, and the new tail suffices again. |
| Seams.FirstHeldExact | go/openapi/body.go:215-232 | However content is cut into reads, a find is first reported at the read that completes the first occurrence in the initial tail and all content so far. |
| Seams.LineHolds | go/openapi/body.go:156-162 | With the initial line break as tail, a find in the whole content coincides with the static check of it as a line. |
| Seams.ReadAt | go/openapi/response.go:716 | A source delivers any non-stalling piece from a position, its end with it or later. |
| Seams.Cursor.Begin | go/openapi/body.go:158-162 | The tail is a line break for content after a delimiter line. |
| Seams.Cursor.Matches | go/openapi/body.go:215-232 | Reports exactly whether the old tail with the data holds a pattern, and keeps the end of both. |
| Seams.Cursor.Advance | go/openapi/body.go:193-197 | Moves to the next source with nothing lost. |
| Seams.Cursor.Take | go/openapi/body.go:183-192 | A piece held back means that the source holds what it cannot; any other is what comes next of the body. |
| Seams.Cursor.Piece | go/openapi/body.go:176-207 | One read of the first source, moving past it when wholly read. |
| Seams.Cursor.Read | go/openapi/body.go:166-209 | Delivers the sources in order; a delimiter error means that one holds what it cannot, another error that one is broken or short, and the end that all were sent and held nothing. |
| Seams.PassesRead | go/openapi/body.go:215-232 | What is read so far of a source holds a pattern exactly if a seam search found it. |
| Multipart.ContentClean | go/openapi/body.go:672-768 | What passes the checks of a part holds no delimiter of the bodies around it. |
| Multipart.BodyClean | go/openapi/body.go:572-629 | Nor does a whole nested body, its own delimiter lines included. |
| Multipart.BodySplits | go/openapi/body.go:572-629 | Splitting at the delimiter gives each part as written. |
| Multipart.BodyRecovered | go/openapi/body.go:572-629 | A body that passes the checks splits at CRLF, two dashes and its boundary into exactly its parts, in order. |
| Multipart.NestedRecovered | go/openapi/body.go:572-629 | So does a body nested in a part, at its own boundary when the caller gave it. |
| Multipart.Opens | go/openapi/body.go:672-768 | A part so recovered opens into exactly the header fields and the content written. |
| Multipart.FitsIs | go/openapi/body.go:734-775 | The bodies let through are exactly those with no delimiter in a header, in content, or, of a body in a part, in its delimiter lines and parts, which have no body of their own. |
| MultipartWriter.Builder.Flush | go/openapi/body.go:103-108 | Bytes become a source, with the body unchanged. |
| MultipartWriter.Builder.Add | go/openapi/body.go:111-114 | A source goes after the bytes so far. |
| MultipartWriter.SourceChecked | go/openapi/body.go:758-759 | A reader's source, checked as it is read, passes exactly if it holds no delimiter. |
| MultipartWriter.PartWriter.Line | go/openapi/body.go:654-662 | Writes a delimiter line and tells whether it holds a delimiter of the bodies around. |
| MultipartWriter.PartWriter.Fields | go/openapi/body.go:738-754 | Writes the header up to its empty line. |
| MultipartWriter.PartWriter.Write | go/openapi/body.go:672-768 | Writes a part, refused exactly when a check fails, a nested body in a nested part among them. |
| MultipartWriter.PartWriter.Content | go/openapi/body.go:755-767 | Writes the content as it is, as a source checked when read, or as a nested body. |
| MultipartWriter.PartWriter.Parts | go/openapi/body.go:572-629 | Writes the body, refused exactly when a check of it fails. |
| MultipartWriter.WriteBody | go/openapi/body.go:522-553 | Is not refused and then read with no delimiter found exactly when the body is acceptable; and what is then sent splits at the boundary into the parts written. |
| MultipartWriter.Send | go/openapi/body.go:522-553 | Written, then read in pieces of any size: what was sent when all is read splits at the boundary into the parts; all that is ever sent is of the body; a refusal or a delimiter error means that the body is not acceptable. |
| Keys.SortSorts | go/openapi/security.go:394-398 | Sorting gives the same elements in order of their keys. |
| Keys.CompactStrict | go/openapi/security.go:407 | Compacting an ascending sequence leaves the same elements, each once. |
| Keys.StrictUnique | go/openapi/security.go:407 | A set of strings has one strictly ascending order. |
| Keys.EscapePrefixFree | go/openapi/compile.go:872-889 | No escaped byte begins another. |
| Keys.CanonicalPrefixFree | go/openapi/compile.go:872-889 | The escaped text up to its closing quote tells the string and what follows it. |
| Keys.CanonicalTells | go/openapi/compile.go:872-889 | So does the whole quoted string. |
| KeyStrings.CanonicalReads | go/openapi/compile.go:872-889 | The text is a JSON string that means the bytes, escaped only where it must be, by the short escape where there is one. |
| Keys.ScopesTell | go/openapi/security.go:407-413 | The scopes' text tells the list of scopes and what follows. |
| Keys.SchemesTell | go/openapi/security.go:399-416 | The texts of ordered schemes are equal exactly if they name the same schemes with the same scopes in the same order. |
| Keys.OrderStrict | go/openapi/security.go:394-398 | Schemes with distinct names are put in strict order, each once. |
| Keys.CanonicalString | go/openapi/compile.go:872-889 | Appends the string escaped as section 3.2.2.2 of RFC 8785 escapes it. |
| Keys.AppendScopes | go/openapi/security.go:407-413 | Appends the scopes' text. |
| Keys.AppendScheme | go/openapi/security.go:405-413 | Appends the scheme's text, its scopes sorted and compacted. |
| Keys.RequirementKey | go/openapi/security.go:393-417 | Returns the key of the schemes ordered by name. |
| Keys.KeysTell | go/openapi/security.go:393-417 | Two requirements with distinct scheme names have equal keys if and only if they name the same schemes with the same set of scopes each. |
| JsonScan.Scanner.Blank | go/openapi/tree.go:543-547 | Skips exactly the white space. |
| JsonScan.Scanner.String | go/openapi/tree.go:550-574 | Accepts a string exactly if it ends and its escapes are JSON's, and notes it exactly if it is written with one. |
| JsonScan.Scanner.ExponentFrom | go/openapi/tree.go:600-607 | The end of an exponent, or that it is none. |
| JsonScan.Scanner.FractionFrom | go/openapi/tree.go:595-607 | The end of a fraction and exponent. |
| JsonScan.Scanner.Number | go/openapi/tree.go:577-610 | Accepts exactly RFC 8259's numbers, read to their end. |
| JsonScan.Scanner.Value | go/openapi/tree.go:448-477 | Accepts exactly what the grammar reads at this depth, appending the value's nodes, noted strings and recorded objects. |
| JsonScan.Scanner.Name | go/openapi/tree.go:491-520 | Refuses a name read before, kept in a list while few and in a set after. |
| JsonScan.Scanner.Member | go/openapi/tree.go:490-527 | A member: its name, in an object, and its value. |
| JsonScan.Scanner.Members | go/openapi/tree.go:479-541 | The members up to the bracket: exactly those the grammar reads, with the node of the value named `$ref`. |
| JsonScan.Scanner.Container | go/openapi/tree.go:479-541 | A container, recorded exactly if it is an object of more than 16 members with a string `$ref`. |
| JsonScan.ParseTree | go/openapi/tree.go:389-413 | Accepts exactly the texts that the grammar writes, white space and escapes included, of at most 1,000 levels with no duplicate member name, and returns the preorder of their values, the strings with an escape and the objects recorded. |
| JsonRefs.RefMore | go/openapi/tree.go:521-523 | With a member more, named as none before, the node remembered is still that of the member named `$ref`. |
| JsonRefs.BigIs | go/openapi/tree.go:537-539 | The recorded test is exact: many members, and the `$ref` value starts with a quote. |
| JsonTree.NodeAt | go/openapi/tree.go:69-75 | The node of each value has its start, its name and the place after all under it. |
| JsonTree.SubNests | go/openapi/tree.go:69-75 | What is under a value under another is under that: intervals nest. |
| JsonTree.KidIs | go/openapi/tree.go:241-258 | The kth member is at the place after those before it, and the last ends where the container does. |
| JsonTree.ReadLies | go/openapi/tree.go:448-477 | What is read lies in the text as its ends say: a container's end is found from its last member over white space alone. |
| JsonTree.NextQuote | go/openapi/tree.go:144-155 | From between two escapes, the next quote closes the string exactly if an even run of backslashes precedes it; and after an odd one the string goes on. |
| JsonTree.ClosingQuote | go/openapi/tree.go:144-155 | The backslash-parity search finds the quote at which forward escape skipping stopped. |
| JsonTree.PlainQuote | go/openapi/tree.go:117-121 | Where no escape is written, the first quote closes the string. |
| JsonTree.NumberBytes | go/openapi/tree.go:136-138 | A number's bytes are those the search for its end passes. |
| JsonTree.SubEscaped | go/openapi/tree.go:159-162 | A string value written with an escape is among those noted. |
| JsonTree.Document.Members | go/openapi/tree.go:241-258 | Enumerates exactly the values in a container, in order. |
| JsonTree.Document.EndOf | go/openapi/tree.go:114-139 | The end recomputed for any value is where the scanner stopped. |
| JsonTree.Document.StringEnd | go/openapi/tree.go:117-121 | The end of a string, by either search. |
| JsonTree.ParsedLies | go/openapi/tree.go:389-413 | So it is for every text the scanner accepts. |
| JsonOrder.ReadPlaced | go/openapi/tree.go:458-459 | Members lie one after another, each name before its value. |
| JsonOrder.EscapesRise | go/openapi/tree.go:554-559 | The noted strings come in ascending order, so a binary search finds them. |
| JsonPrint.ValueReads | go/openapi/tree.go:448-477 | A printed value, anywhere in a text, is read exactly if it nests within the limit, and then as it was, where it was printed. |
| JsonPrint.PrintReads | go/openapi/tree.go:389-413 | A printed JSON value is accepted if and only if it nests no more than 1,000 levels, and then read back. |
| JsonScalars.StringRead | go/openapi/tree.go:550-574 | A string of characters, short escapes and four-digit ones is read to its quote, as escaped if and only if it has an escape. |
| JsonScalars.QuotedString | go/openapi/tree.go:550-574 | Nothing else is a string. |
| JsonScalars.ScalarRead | go/openapi/tree.go:541-607 | What is read whole as a scalar is exactly what the grammar has for one: strings, numbers and literals. |
| JsonGrammar.ValueRead | go/openapi/tree.go:448-477 | A value as the grammar writes it, white space anywhere it may be, is read if and only if it nests within the limit and repeats no name, and as that value. |
| JsonGrammar.ValueOf | go/openapi/tree.go:448-477 | What is read is written by the grammar. |
| JsonGrammar.ParsedIs | go/openapi/tree.go:389-413 | A text is accepted if and only if the grammar of RFC 8259 writes it, with no more than 1,000 levels and no repeated name. |
| Collections.OutMore | go/openapi/collection.go:57-95 | Values written one after another: the first after one separator, the others each after another. |
| Collections.OutJoined | go/openapi/collection.go:57-95 | That is one separator before their join. |
| Collections.ListAllowed | go/openapi/editions.go:88-126 | An array is allowed exactly if its items are, a level deeper, and its format is known or it is empty. |
| Collections.ObjectAllowed | go/openapi/param.go:464-482 | An object is allowed exactly if its members are and none is given. |
| Collections.GivenValues | go/openapi/editions.go:88-126 | A value is given exactly if it comes to any value. |
| CollectionWriter.Writer.Next | go/openapi/collection.go:57-95 | Writes what precedes the next value: the delimiter of the innermost level begun, or the parameter's start, beginning each level around, unless blocked or out of room. |
| CollectionWriter.Writer.Finish | go/openapi/collection.go:97-102 | An array of only undefined items comes to an empty value, unless it is multi. |
| CollectionWriter.Writer.Scalar | go/openapi/collection.go:21-35 | Writes a scalar exactly if it fits. |
| CollectionWriter.Writer.ArrayFits | go/openapi/collection.go:195-275 | A level's values fit exactly as their join does around it. |
| CollectionWriter.Writer.InLevel | go/openapi/collection.go:209-230 | Writes the items of an array in its level, and ends it. |
| CollectionWriter.Writer.Array | go/openapi/collection.go:209-230 | Writes an array as its join. |
| CollectionWriter.Writer.Items | go/openapi/collection.go:220-230 | Writes the items, in order. |
| CollectionWriter.Writer.Members | go/openapi/collection.go:231-252 | Reads the members of an object, refusing it exactly if one is given or not allowed. |
| CollectionWriter.Writer.Value | go/openapi/collection.go:195-275 | Writes exactly what the recursive definition gives, joined from the inside out, and agrees on whether the value is given and allowed. |
| CollectionWriter.Writer.Write | go/openapi/collection.go:195-275 | For every value and nesting with `multi` only outermost, writes the recursive definition's values with `&name=` between them, and refuses exactly what it refuses, defective descriptions and lack of room aside. |
| CollectionReads.JoinedReads | go/openapi/editions.go:88-126 | A collection of any depth is read back by splitting level by level at comma, space, tab or bar, if its formats differ and no scalar has one of their signs. |
| CollectionReads.MultiReads | go/openapi/collection.go:80-97 | A query parameter of format multi is one `name=value` pair for each item, each read back so. |
| CollectionReads.ListGives | go/openapi/collection.go:45-55 | A list of scalars is written with its format's sign between, escaped unless a comma, or as so many values of the parameter. |
| Yaml.NodesMove | go/openapi/yaml.go:284-290 | The nodes of a value are those of it elsewhere, moved. |
| Yaml.MarksMove | go/openapi/yaml.go:295-299 | So are its noted strings. |
| Yaml.BigsMove | go/openapi/yaml.go:291-293 | So are its recorded objects. |
| YamlOutput.WroteMore | go/openapi/yaml.go:184-199 | Writing a member after others is writing them all. |
| YamlOutput.MarksRise | go/openapi/yaml.go:316-332 | Noted strings come in ascending order. |
| YamlWriter.RecordedGrows | go/openapi/yaml.go:92-102 | What is kept of a written node stays true as more is written. |
| YamlWriter.WroteRecords | go/openapi/yaml.go:176-178 | What is kept at the end of a node is true of it. |
| YamlWriter.ContainerWrote | go/openapi/yaml.go:143-178 | A container is its bracket, its members and the bracket that closes it, its node completed in place. |
| YamlWriter.CopyWrote | go/openapi/yaml.go:281-299 | The text copied, the nodes relocated and renamed, the entries of `escapes` and `bigRefs` shifted are what writing the value again would write. |
| YamlWriter.BigIs | go/openapi/yaml.go:255-257 | The recorded test is exact. |
| YamlWriter.Writer.Quote | go/openapi/yaml.go:316-332 | Writes a string as a JSON string, noted if it may have an escape. |
| YamlWriter.Writer.Count | go/openapi/yaml.go:305-311 | Counts what an alias adds and tells exactly whether it may. |
| YamlWriter.Writer.Keep | go/openapi/yaml.go:176-178 | Keeps where a node aliases name was written. |
| YamlWriter.Writer.Copy | go/openapi/yaml.go:281-299 | Writes again what was written of a node. |
| YamlWriter.Writer.CopyNodes | go/openapi/yaml.go:284-290 | Relocates a range of nodes. |
| YamlWriter.Writer.CopyRefs | go/openapi/yaml.go:291-293 | Shifts the recorded objects of the range. |
| YamlWriter.Writer.Scalar | go/openapi/yaml.go:143-159 | Writes a scalar and its node, as its value, which `YamlReadings.Agrees` pins to the scalar. |
| YamlWriter.Writer.Distinct | go/openapi/yaml.go:217-230 | Refuses exactly a key that one before is, kept in a list while few and in a set after. |
| YamlWriter.Writer.Spell | go/openapi/yaml.go:231-241 | Writes a key up to its value; an alias as key counts as what it adds. |
| YamlWriter.Writer.Key | go/openapi/yaml.go:209-241 | Accepts exactly a scalar key, spelled or by alias, that no key before is, within the bounds. |
| YamlWriter.Writer.Pair | go/openapi/yaml.go:208-253 | Writes a mapping's entry. |
| YamlWriter.Writer.Entries | go/openapi/yaml.go:204-253 | Accepts exactly the entries that mean something within depth and bounds, and remembers the node of the `$ref` value. |
| YamlWriter.Writer.Sequence | go/openapi/yaml.go:184-199 | Accepts exactly the sequences that mean something within depth and bounds, and writes them. |
| YamlWriter.Writer.Mapping | go/openapi/yaml.go:203-259 | So the mappings, one recorded exactly if it has more than 16 members and a string `$ref`. |
| YamlWriter.Writer.Alias | go/openapi/yaml.go:265-301 | Writes the value of the node the alias names exactly if that is written or a scalar, and fits. |
| YamlWriter.Writer.Value | go/openapi/yaml.go:134-180 | Accepts a node exactly if it means something, nests within the limit and its aliases fit; writes its meaning, and uses up exactly the room its aliases take. |
| YamlWriter.Writer.Container | go/openapi/yaml.go:143-179 | The same of a sequence or mapping. |
| YamlBounds.FitsFirst | go/openapi/yaml.go:184-259 | Entries are accepted exactly if the first is, and those after it in the room it leaves. |
| YamlBounds.FitsContainer | go/openapi/yaml.go:134-180 | A container is accepted exactly if its entries are. |
| YamlAliases.MeaningDenoted | go/openapi/yaml.go:261-300 | What a node means to the writer is what it denotes when each alias is read as the node it names. |
| YamlAliases.OneDenoted | go/openapi/yaml.go:261-300 | A node denotes one value at most. |
| YamlAliases.DenotedMeans | go/openapi/yaml.go:268-277 | A node that denotes a value is not refused as aliasing itself. |
| YamlAliases.MeaningExact | go/openapi/yaml.go:261-301 | A document means something exactly if it denotes a value, each alias that of the node it names, and it means that value. |
| YamlReadings.DenotedAgrees | go/openapi/yaml.go:143-179 | What a document denotes agrees with it node by node, by what its strings decode to. |
| YamlReadings.AddedIs | go/openapi/yaml.go:305-311 | What the writer counts for aliases is, by occurrence, the nodes and bytes of the values they stand for. |
| YamlReadings.OwnBounds | go/openapi/yaml.go:121-130 | The values written are no more than the document's own nodes and what its aliases add. |
| YamlReadings.OwnCounts | go/openapi/yaml.go:121-130 | Without aliases its own nodes are those values and the names of their members. |
| YamlReadings.AcceptedFits | go/openapi/yaml.go:106-112 | What fits the writer's bounds is just what is within a million nodes, 100 times its own and 100 times its bytes. |
| YamlRefs.BigsRead | go/openapi/yaml.go:265-301 | The objects recorded of a value are those that reading its text records. |
| YamlTree.MeaningGood | go/openapi/yaml.go:134-180 | What a document means is JSON, no object naming two members alike. |
| YamlTree.EscapesMarked | go/openapi/yaml.go:316-332 | Every string written with an escape is noted. |
| YamlTree.BigsExact | go/openapi/yaml.go:255-257 | The recorded objects are exactly those of more than 16 members with a string `$ref`. |
| YamlTree.Read | go/openapi/yaml.go:106-117 | Reading the text of a value gives it back. |
| YamlTree.ReadAgrees | go/openapi/yaml.go:106-117 | What is written of an accepted document reads back as it. |
| YamlTree.Write | go/openapi/yaml.go:106-117 | Accepts exactly the documents that denote a value of no more than 1,000 levels whose aliases add no more than a million nodes, a hundred times its own nodes, and a hundred times its bytes; the text reads back as a value that agrees with the document node by node, plain scalars as they are, other scalars and keys decoding to what they spell, each alias as the node it names; the nodes are those parsing the text gives, at most 101 times the document's own, `escapes` is sorted and covers every escaped string, and `bigRefs` is as parsing records it. |
| YamlOctal.OrAdds | go/openapi/yaml.go:440-443 | Setting bits above those set adds them. |
| YamlOctal.DigitSplits | go/openapi/yaml.go:439-443 | A three-bit digit at any bit splits into what fits its word and what carries into the next. |
| YamlOctal.ValueBelow | go/openapi/yaml.go:434-444 | Above the bits of a value its words are zero. |
| YamlOctal.OctalBound | go/openapi/yaml.go:433-434 | The digits fit in the words reserved. |
| YamlOctal.SetDigit | go/openapi/yaml.go:439-443 | Adds the digit at its bit, every word staying below two to its size. |
| YamlOctal.Pack | go/openapi/yaml.go:428-446 | Accepts exactly octal digits, and the words are the number they spell. |
| YamlNumbers.SpelledValue | go/openapi/yaml.go:452-474 | The JSON spelling of a Core schema number has the value written: sign, digits, point and exponent. |
| JsonNumbers.JsonNumber | go/openapi/tree.go:577-610 | A number of JSON's parts is read as one number, to its end. |
| JsonNumbers.NumberParts | go/openapi/tree.go:577-610 | What is read as a number is one of JSON's parts. |
| YamlNumbers.Cut | go/openapi/yaml.go:462-470 | Cuts what follows the sign at its exponent and its point, and drops a bare point. |
| YamlNumbers.Rewrite | go/openapi/yaml.go:452-474 | Rewrites a Core schema number to that spelling: one JSON number, of the same value. |

## Left out

- The keywords of one schema (`own`, `go/openapi/fields.go:244-303`): what a schema says itself and names is given, as are the typing of a value (`typing`) and a node's Encoding and Header Objects (`scan`, `slot`): each object comes with its kids in order and whether one of its own values is given by reference.
- Closure.Walk: does not model the source label `at` handed to the callback with each schema; the schemas called and their order are modelled.
- DefaultSets.Sets.Defaults: a state stands for the list of schemas that `stateOf` spells; the spelling of the list as a key is not modelled.
- FollowMemo.References.Follow: `target` is an abstract partial function from references to nodes, and the error text is not modelled.
- UploadRuns.Exchange.Open: the links from each generation to the one before it are modelled as the sequence of generations handed over.
- `settle` and `waitUpload` block; here they are steps of the state machine that are enabled when the wait is over. `Items` and `settle` are state machines over their steps rather than classes.
- `withContext`, which joins a context's cause to an error, and the stop function of a response stream that `publish` calls.
- Framing.FrameReader.Fill: assumes a source that never returns 100 empty reads in a row; the 2,048-byte buffer is a chunk of any size.
- EventStream.EventReader.Next: does not model the saturation of bounds within four bytes of 2^63, as integers are unbounded here; nor does JsonSequence.RecordReader.NextItem.
- The JSON Lines branch of `next` (`go/openapi/framing.go:232-256`), one call of `until` per line.
- `appendEvent` for an object that is not an `Event` (`go/openapi/sequential.go:232-258`), whose lines are in the order of its members.
- Seams.Cursor.Read: does not model sources encoded as form fields (`form`, `pend`), whose bytes pass through an escaping.
- MultipartWriter.PartWriter.Write: headers and media types are given as name and value pairs; building Content-Disposition and Content-Type, RFC 6570 fields, pre-encoded multipart content and refusals other than those of delimiters and nesting are not modelled.
- MultipartWriter.WriteBody: a caller-given boundary; content is not checked against a generated one.
- JsonScan.ParseTree: the flags `note` sets for discovery, the positions and text of rejections, cancellation, and offsets of 32 bits, which bound a document to 4 GiB.
- Looking up members by name (`get`, `item`, `index`) and JSON Pointers.
- CollectionWriter.Writer.Value: starts from JSON data, as `legacyValues` does; the walk of Go values by reflection and the scanning of JSON text in place are not modelled, and escaping is a function that does not shorten and gives nothing of nothing.
- YamlTree.Write: begins after the YAML parser; what a scalar resolves to is given, tags, anchors' names, rejections' positions and cancellation are not modelled, and the list of recorded objects is compared before both producers sort it.
- YamlOctal.Pack: begins after the prefix and leading zeros; writing the words in decimal, and hexadecimal integers, are the big-integer library's.
- YamlNumbers.Rewrite: begins with a number the Core schema's expression matches.
- Sorting (`slices.SortFunc`) is insertion in order, which gives the one sorted order of distinct keys.
- `summary.add` and `chain` of the index, `clash` and the compiling of security, the RFC 6570 `emitter`, `swaggerParam`'s diagnosis of where `multi` is legal, and the reader of multipart responses: one branch at a time says what they do.
- Retrieval, admission, discovery, schema scope, redirects, HTTP, cookies, timers, descriptors, option validation and error text; the TypeScript and Rust clients and the qualification scripts.
