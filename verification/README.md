# Open vAIR: scheduler, RPC, contract linter, network sync and clone allocation, verified

This Dafny project models five parts of Open vAIR whose correctness depends on more than one function,
and proves what they keep over whole runs or for all inputs.

**Scheduler.** Jobs live twice: as rows of the service layer's database and as items of the OS crontab,
which only the domain layer touches. Requests commit to the database first and then call the domain
layer; a periodic pass copies the crontab's state back, disables jobs the crontab lost and deletes
crontab items without a row.
`SchedulerJobs` holds the data and the decisions, `SchedulerService` the methods as they run,
`SchedulerTheorems` what whole operations keep and when the replicas agree, `SchedulerProtocol` the
interleaving of requests, passes and domain messages that may be lost, delayed or delivered twice.
The three orderings that the code fixes are parameters there: the code's choice is safe in every
interleaving and every other choice is not. `SchedulerSequences` ties the two levels together: run without
interruption, the protocol's steps have the effect of the whole operations.

**RPC.** `Rpc` holds the client (which keeps one correlation id and one response) and the server (execute,
publish, acknowledge); `RpcProtocol` puts any number of clients and one server around a broker that may
lose, delay, reorder and redeliver messages, with crashes; `RpcSequences` shows that a call there, with
anything going on around it, returns what the client's method makes of the deliveries it heard, and that an
uninterrupted request is what the server's method does.

**Contract linter.** From source files to verdict: `HandlerParameters` and `SourceTrees` read functions,
classes and FastAPI routes off a syntax tree, `SourceIndex` merges files into a per-layer index,
`ContractNormalizer` turns shorthand contracts into the form the comparator reads, `Requirements` says
independently of any loop what a contract demands, `Comparator` and `Extras` are the accumulating loops
(`WarningOrder` is the order in which warnings come),
`Surface` proves that no errors and no warnings together mean an exact match, `Growth` carries this to
source files and says when one more file keeps a passing contract passing. `ParameterRows`, `RoutePaths`,
`FilePaths`, `Names` and `Text` are the canonical forms underneath; `SpecDocument` is the Markdown writer
and extractor.

**Network sync.** `NetworkSync` reads the system's interfaces and reconciles the table with them, repeated
names included; `NetworkTheorems` says what a pass means; `ExtraSpecs` updates an interface's key/value rows
on the row objects themselves.

**Clones.** `CloneNames` prints and parses numbered clone names; `CloneMacs` draws MAC addresses until they
are new.

What the functions on values themselves come to is stated in the modules named `...Laws`, field by field and
character by character, in terms of inputs and results: `SchedulerLaws`, `TreeLaws`, `SourceLaws`,
`ParameterLaws`, `LookupLaws`, `PathLaws`, `DocumentLaws`, `NetworkLaws` and `CloneLaws`.

`dafny verify dfyconfig.toml` checks everything. Code that updates fields in place is a class whose methods
are proved to have exactly the effect of a function or relation on values; the laws are then proved about
those.

## Where the code and its promises part

- The cap on active jobs is not kept without failures: the domain layer creates every crontab item
  enabled, whatever the job's own flag says, and the next pass copies that back
  (`SchedulerTheorems.CapBrokenWithoutFailures`; `PassKeepsCapIff` says exactly when the cap survives, and
  `CapWithoutFailures` that it does when every job is created enabled).
- An execution that fails with an empty error text reaches the caller as an empty result instead of an
  error (`RpcProtocol.SilentFailureReturnsValue`).
- A network pass strikes a reported name from the left-over list once, however many rows bear it: apart from
  names with a doomed prefix, an interface that the system reports ends with a row in error exactly when it
  had more than one row (`NetworkTheorems.ReportedInErrorIff`), and a pass leaves names distinct exactly when
  only doomed names were repeated (`NetworkTheorems.NamesDistinctAfterPassIff`).
- The system reader stores an interface's specs under a key that the sync does not read, so on a table with
  distinct names a pass over any report of the system leaves every reported interface without extra specs
  (`NetworkTheorems.SystemPassClearsExtraSpecs`); a second pass then changes nothing
  (`NetworkTheorems.SystemSecondPassIsIdentity`).
- A second scheduler pass over an unchanged crontab is no no-op as soon as the reported run times have moved
  (`SchedulerTheorems.SecondPassChangesNothingIff`); which jobs are active it changes only when a row that the
  crontab lacks has aged in between.
- Under a prefix that is not blank, the path of a shorthand endpoint differs from the code's exactly when its
  text is empty or already starts with the prefix (`RoutePaths.ContractAgreesWithCode`).
- Joining two nested prefixes that are not blank is associative exactly when the inner one does not start with
  two slashes (`RoutePaths.NestedPrefixes`).
- The order of a list of parameter rows shows through the freezing exactly when two rows with one name
  differ (`ParameterRows.OrderNeverShowsIff`, `RepeatedNamesAreNotCanonical`); a handler's own rows never do
  (`ParameterRows.HandlerRowsAreDistinct`).
- A handler parameter with a literal default other than `None` is recorded as required
  (`HandlerParameters.NotRequiredIff`), and the separate rule for dictionary annotations never applies
  (`HandlerParameters.KindMeaning`).
- An entry of a layer's `required_http_endpoints` is dropped exactly when any `http` mapping stands beside the
  list and does not come to the same entry (`ContractNormalizer.EntryIsLostIff`). The linter then reports
  nothing about that entry, whatever the code (`LostEntryGoesUnreported`), and a layer can pass without its
  route (`LayerPassesWithoutLostRoute`).
- The clone helper's documentation speaks of a bound of 99; the code's bound, modelled here, is 999.
- The documentation speaks of the first block of a document; a block is read up to the first fence that
  follows its opening exactly when that fence is the document's last one
  (`SpecDocument.FirstBlockIsReadIff`, `SecondFenceIsSwallowed`). The same greed is what makes the round trip
  hold for any YAML text.

## Model

| member | source | states |
|---|---|---|
| SchedulerService.SchedulerServiceLayerManager.CreateJob | openvair/modules/scheduler/service_layer/services.py:91-134 | A refused request (invalid data, cap reached for an enabled job, name taken) leaves both replicas alone; an accepted one commits its row first, and the row stays even when the domain call is lost or times out, although the caller then gets an error |
| SchedulerService.SchedulerServiceLayerManager.EditJob | openvair/modules/scheduler/service_layer/services.py:136-160 | Same for edits: errors in the code's order, for whichever row the query by the new name hands back; nothing written before the commit (a null in a required column rolls back); the crontab item follows only if it exists and the call arrives |
| SchedulerService.SchedulerServiceLayerManager.SetFields | openvair/modules/scheduler/service_layer/services.py:145-146 | Exactly the payload's keys are overwritten; absent keys keep the row's value |
| SchedulerService.SchedulerServiceLayerManager.ValidateEditData | openvair/modules/scheduler/service_layer/services.py:172-216 | Rejects with the error the edit decision gives, and otherwise leaves only the null check of the commit |
| SchedulerService.SchedulerServiceLayerManager.DeleteJob | openvair/modules/scheduler/service_layer/services.py:218-245 | Only a disabled, existing job goes; its row is gone for good before the crontab call, whatever becomes of that call |
| SchedulerService.SchedulerServiceLayerManager.Monitoring | openvair/modules/scheduler/service_layer/services.py:258-328 | One uninterrupted pass has the effect of the pass function on both replicas, for any report, visiting order and fate of the deletions; a failed report changes nothing |
| SchedulerService.SchedulerServiceLayerManager.ById | openvair/modules/scheduler/service_layer/services.py:274-275 | The report by id, a later entry winning |
| SchedulerTheorems.JobMapKeepsLast | openvair/modules/scheduler/service_layer/services.py:274-275 | The report by id knows exactly the reported ids, each with its last entry |
| SchedulerService.SchedulerServiceLayerManager.SynchronizeRows | openvair/modules/scheduler/service_layer/services.py:280-309 | Consuming the report while walking the rows gives each row its new value and leaves exactly the ids without a row |
| SchedulerService.SchedulerServiceLayerManager.DeleteOrphans | openvair/modules/scheduler/service_layer/services.py:311-324 | Exactly the orphans whose deletion was not lost leave the crontab; one failure does not stop the others |
| SchedulerService.SchedulerServiceLayerManager.SynchronizeOsToDbInfo | openvair/modules/scheduler/service_layer/services.py:330-355 | Run times that are missing or malformed keep the old value; `enabled` follows the crontab when reported |
| SchedulerLaws.ReportedRowAfterPass | openvair/modules/scheduler/service_layer/services.py:283-355 | After a pass a row takes over from the last entry for its id the run times that are dates and the flag if there is one, keeps them otherwise, and keeps name, description, schedule, command and creation time |
| SchedulerLaws.UnreportedRowAfterPass | openvair/modules/scheduler/service_layer/services.py:294-308 | A row without an entry stays as it is, except that it is disabled if it was created more than 30 seconds ago |
| SchedulerLaws.ReplicasAfterPass | openvair/modules/scheduler/service_layer/services.py:267-326 | A pass makes and removes no row; a crontab item goes exactly when it is reported, has no row and its deletion is not lost; a failed report changes nothing |
| SchedulerLaws.CreateIsDecided | openvair/modules/scheduler/service_layer/services.py:93-117 | Which request is refused with which error, in order, or accepted |
| SchedulerLaws.CreateAddsRow | openvair/modules/scheduler/service_layer/services.py:119-132 | An accepted request adds exactly one row, with the requested fields, its flag included, and no run times; the crontab gets an enabled item unless the call is lost; all else stays |
| SchedulerLaws.EditIsDecided | openvair/modules/scheduler/service_layer/services.py:172-216 | Which edit is refused with which error, in order, or accepted |
| SchedulerLaws.EditWritesRow | openvair/modules/scheduler/service_layer/services.py:145-158 | An accepted edit writes exactly the given fields of its row, a null clearing the description only, and hands the flag to an existing crontab item; all else stays |
| SchedulerLaws.DeleteRemovesRow | openvair/modules/scheduler/service_layer/services.py:222-243 | Exactly an existing, disabled job loses its row, and its item unless the call is lost; all else stays |
| SchedulerLaws.CommitWritesChangedColumns | openvair/modules/scheduler/service_layer/services.py:279-326 | Among other requests, committing a pass writes run times and flags only, and of those the ones it changed; nothing if a row it changed is gone |
| SchedulerTheorems.PassConverges | openvair/modules/scheduler/service_layer/services.py:267-326 | From any contents, one pass with successful deletes keeps the set of rows, puts crontab ids inside row ids, and makes the enabled ids of the replicas equal exactly when no enabled row missing from the crontab is within its 30 seconds |
| SchedulerTheorems.SecondPassChangesNothingIff | openvair/modules/scheduler/service_layer/services.py:267-355 | A further pass at any time over the crontab as the first pass left it, whatever run times it then reports: the crontab and the set of rows stay; the active rows stay exactly when no enabled row that the crontab lacks left its grace period between the passes; all rows stay exactly when moreover every reported run time is missing, malformed or the one the row has |
| SchedulerTheorems.OperationKeepsNames | openvair/modules/scheduler/service_layer/services.py:91-328 | Every create, edit, delete and pass keeps names pairwise distinct, although the table does not enforce it |
| SchedulerTheorems.LookupDecidesIff | openvair/modules/scheduler/service_layer/services.py:186-191 | While names are distinct, the one row the name query hands back decides correctly: a new name is refused exactly when another row bears it |
| SchedulerTheorems.NamesStayDistinct | openvair/modules/scheduler/service_layer/services.py:91-328 | In every run with domain calls failing arbitrarily, names stay distinct |
| SchedulerTheorems.PassActivatesNothingIff | openvair/modules/scheduler/service_layer/services.py:348-355 | A pass activates no job exactly when every row the crontab reports as enabled is already enabled |
| SchedulerTheorems.OperationKeepsCap | openvair/modules/scheduler/service_layer/services.py:103-113 | Every operation keeps at most ten active jobs, a pass under the condition above |
| SchedulerTheorems.CapHolds | openvair/modules/scheduler/service_layer/services.py:103-216 | The cap in every run whose passes meet that condition, domain calls failing arbitrarily |
| SchedulerTheorems.PassOnAligned | openvair/modules/scheduler/service_layer/services.py:283-309 | On replicas with the same ids and no active job without an enabled item, a pass makes them agree and leaves the crontab alone |
| SchedulerTheorems.FailureFreeRunsStayAligned | openvair/modules/scheduler/service_layer/services.py:91-328 | In failure-free runs the replicas hold the same ids, and agree after every operation if all jobs are created enabled |
| SchedulerTheorems.CapWithoutFailures | openvair/modules/scheduler/service_layer/services.py:91-328 | In failure-free runs that create jobs enabled, passes included, the cap always holds |
| SchedulerTheorems.PassKeepsCapIff | openvair/modules/scheduler/service_layer/services.py:348-355 | After any failure-free run, a pass keeps the cap exactly when at most ten crontab items are enabled beforehand |
| SchedulerTheorems.CapBrokenWithoutFailures | openvair/modules/scheduler/domain/cron_jobs/cron_job.py:49-63 | More than ten jobs created disabled, nothing fails, and one pass activates them all |
| SchedulerProtocol.StepKeepsInvariant | openvair/modules/scheduler/service_layer/services.py:119-326 | Every step of every interleaving keeps: published deletions, pending deletes and a pass's orphans name only ids that are dead for good, what a pass read from the crontab was once handed out, names are distinct |
| SchedulerProtocol.RunKeepsInvariant | openvair/modules/scheduler/service_layer/services.py:119-326 | The same for every run, with messages lost, late or repeated and either side dying in the middle |
| SchedulerProtocol.NamesDistinctInEveryRun | openvair/modules/scheduler/service_layer/services.py:115-191 | Names are distinct in every interleaving |
| SchedulerProtocol.LiveItemsSurviveDelivery | openvair/modules/scheduler/service_layer/services.py:311-322 | Delivering any published message, however late, leaves the crontab item of a live job in place |
| SchedulerProtocol.EagerCreateUnsafe | openvair/modules/scheduler/service_layer/services.py:119-132 | If create called the domain before committing, some run asks for and carries out the deletion of a live job's crontab item |
| SchedulerProtocol.EagerDeleteUnsafe | openvair/modules/scheduler/service_layer/services.py:236-243 | If delete called the domain before committing, some run, in which the service dies in between, ends with a live job whose item is deleted |
| SchedulerProtocol.RowsFirstUnsafe | openvair/modules/scheduler/service_layer/services.py:267-280 | If the pass loaded the rows before the crontab, some run asks for and carries out the deletion of a live job's item |
| SchedulerProtocol.SafeIffCodeOrder | openvair/modules/scheduler/service_layer/services.py:119-326 | No deletion ever names a job that is live then or later, in all interleavings, for the code's three orderings and for no other combination; with any other some run leaves a live job without its item |
| SchedulerSequences.CreateIsPerformed | openvair/modules/scheduler/service_layer/services.py:119-132 | Commit, domain call and delivery of a create, uninterrupted, have the effect of the whole operation on both replicas, for any fate of the call |
| SchedulerSequences.EditIsPerformed | openvair/modules/scheduler/service_layer/services.py:145-158 | The same for an edit |
| SchedulerSequences.DeleteIsPerformed | openvair/modules/scheduler/service_layer/services.py:236-243 | The same for a delete |
| SchedulerSequences.PassIsPerformed | openvair/modules/scheduler/service_layer/services.py:267-326 | The same for a whole pass: both reads, every orphan deletion with its fate, and the commit |
| SchedulerSequences.FlushOfPass | openvair/modules/scheduler/service_layer/services.py:330-355 | Writing the changed columns of a pass back to the rows it loaded gives the rows of the pass |
| Rpc.RabbitRPCClient.OnResponse | openvair/libs/messaging/rpc/rabbit_rpc.py:97-101 | Only a delivery with the current correlation id replaces the response; a matching body that is no JSON raises and leaves it |
| Rpc.RabbitRPCClient.Call | openvair/libs/messaging/rpc/rabbit_rpc.py:133-166 | Publishes one request under a new id, and ends as the deliveries of its own wait decide: earlier responses have no influence |
| Rpc.RabbitRPCClient.Cast | openvair/libs/messaging/rpc/rabbit_rpc.py:187-207 | Publishes without a callback queue under a new id and leaves the old response alone |
| Rpc.RabbitRPCServer.OnRequest | openvair/libs/messaging/rpc/rabbit_rpc.py:256-293 | A parsed request leads to one reply, to the requester and with its id, exactly when a callback queue was named, and after that to one acknowledgement; an unparsable body to nothing at all |
| Rpc.ListenTakesLastMatch | openvair/libs/messaging/rpc/rabbit_rpc.py:97-101 | After any deliveries the response is the last matching one, or the initial one if none matched; the wait raises exactly when a matching body is no JSON |
| Rpc.ReplyMeaning | openvair/libs/messaging/rpc/rabbit_rpc.py:264-283 | A reply carries the produced value or the text of the failure, not both; it never reads as a timeout; the caller gets value v exactly when the method produced v, or raised with an empty text and v is the empty object; and an error with a text exactly when the method raised with that text, not empty, or the result could not be serialized for the reason in it |
| Rpc.ConcludeMeaning | openvair/libs/messaging/rpc/rabbit_rpc.py:158-166 | How a call ends on any dictionary: timeout if it is empty, error if it has an error text that is not empty, otherwise the value, or an empty object |
| Rpc.WaitOutcome | openvair/libs/messaging/rpc/rabbit_rpc.py:157-166 | A wait times out exactly when no matching reply came, and otherwise ends with the verdict on the last one |
| RpcProtocol.RunKeepsInvariant | openvair/libs/messaging/rpc/rabbit_rpc.py:97-293 | In every run each published reply comes from an execution of the one request with its id and callback queue, and each response held by a waiting call from an execution of that call's own request after it was published |
| RpcProtocol.ReturnedValuesAreGenuine | openvair/libs/messaging/rpc/rabbit_rpc.py:133-166 | In every run a value returned by a call was produced by an execution of the very request this call published, after it was published (or the method raised with an empty text, taken for an empty result) |
| RpcProtocol.ReturnedErrorsAreGenuine | openvair/libs/messaging/rpc/rabbit_rpc.py:158-166 | In every run a call that ends with an error text comes from an execution of its own request, after publication, that failed with exactly that text |
| RpcProtocol.SilentFailureReturnsValue | openvair/libs/messaging/rpc/rabbit_rpc.py:164-166 | That exception happens: a run in which the only execution raises and the call returns a value |
| RpcProtocol.BooksBalance | openvair/libs/messaging/rpc/rabbit_rpc.py:264-293 | In every run each execution that wanted a reply is answered once, in hand, or lost to a server crash; no request is acknowledged before its reply is published |
| RpcProtocol.NothingDroppedWithoutCrash | openvair/libs/messaging/rpc/rabbit_rpc.py:284-293 | Without server crashes no execution goes unanswered for good |
| RpcProtocol.RepliesEqualExecutions | openvair/libs/messaging/rpc/rabbit_rpc.py:284-293 | Without server crashes, between requests, replies to a request are as many as its executions |
| RpcProtocol.CastsAreNeverAnswered | openvair/libs/messaging/rpc/rabbit_rpc.py:200-207 | No reply, to any client, ever carries the id of a cast |
| RpcSequences.WaitIsListened | openvair/libs/messaging/rpc/rabbit_rpc.py:97-101 | Whatever happens around a waiting client leaves it the response that its own loop makes of the deliveries it heard, replies to this call and to others alike |
| RpcSequences.CallIsPerformed | openvair/libs/messaging/rpc/rabbit_rpc.py:133-166 | A call, its own reply published during the wait or not, with other clients, server, losses and crashes going on, returns what the client's method returns on what it heard; what it had heard before has no part in it |
| RpcSequences.CallTimesOutIff | openvair/libs/messaging/rpc/rabbit_rpc.py:157-166 | From any state a run can reach: the call times out exactly when no reply with its id arrived during its wait; otherwise it gives the value, or the error text, of the outcome that the last such reply carries |
| RpcSequences.RoundTrip | openvair/libs/messaging/rpc/rabbit_rpc.py:133-293 | Called, executed, answered and heard without interruption, a call gives the value its execution produced, or the text it failed with |
| RpcSequences.RequestIsServed | openvair/libs/messaging/rpc/rabbit_rpc.py:256-293 | An uninterrupted execution in the protocol publishes exactly the reply of the server's method and acknowledges once |
| HandlerParameters.Collect | requirements_linter/http/http_routes.py:322-329 | The list is the public arguments, positional before keyword-only, each with its own default |
| HandlerParameters.AppendPositionalParams | requirements_linter/http/http_routes.py:277-299 | Appends the public positional arguments, defaults aligned from the right |
| HandlerParameters.AppendKwonlyParams | requirements_linter/http/http_routes.py:302-319 | Appends the public keyword-only arguments |
| HandlerParameters.SuggestsBodyIff | requirements_linter/http/http_routes.py:141-168 | An annotation counts as a request body exactly when going into subscripts and attribute values reaches `schemas.X` |
| HandlerParameters.KindMeaning | requirements_linter/http/http_routes.py:175-190 | Which kind is given when, in terms of the default's call and the annotation alone; the dictionary rule is never reached |
| HandlerParameters.NotRequiredIff | requirements_linter/http/http_routes.py:193-232 | The three cases in which a recorded parameter is not required, whatever its kind |
| HandlerParameters.DefaultsBelongToLast | requirements_linter/http/http_routes.py:283-288 | Defaults belong to the last positional arguments, counted from the end |
| HandlerParameters.RecordedArePublic | requirements_linter/http/http_routes.py:288-319 | Exactly the public arguments are recorded, and as distinctly named as they are |
| HandlerParameters.ParameterNames | requirements_linter/http/http_routes.py:292-299 | A recorded parameter bears its argument's name and annotation text |
| HandlerParameters.RecordedInOrder | requirements_linter/http/http_routes.py:288-319 | Recording goes argument by argument, in order, and skips exactly the names with a leading underscore |
| HandlerParameters.OwnDefaultIs | requirements_linter/http/http_routes.py:193-207 | The default of a `Query` call is its first keyword `default`, or without one its first argument |
| SourceTrees.ExtractEndpoints | requirements_linter/http/http_routes.py:344-374 | The routes of a module: one per public top-level handler with a recognised decorator, in order |
| SourceTrees.CollectRouterVars | requirements_linter/http/http_routes.py:78-84 | The loop gives the router variables of the whole module, as the next row describes them |
| SourceTrees.LastAssignmentWins | requirements_linter/http/http_routes.py:73-84 | Exactly the variables some statement of the module assigns a router to have a prefix, and the last such assignment gives it |
| SourceTrees.EndpointsAreComplete | requirements_linter/http/http_routes.py:261-274 | Every extracted route has a verb, a path starting with a slash and a public handler |
| TreeLaws.PublicFunctionsAreHeld | requirements_linter/core/ast_specs.py:63-84 | The public functions of a body are exactly the functions it directly holds whose name has no leading underscore |
| TreeLaws.ClassesOccur | requirements_linter/core/ast_specs.py:161-164 | The declared classes are exactly those that occur in the tree, at any depth |
| TreeLaws.MethodsOccur | requirements_linter/core/ast_specs.py:63-72 | A class has a method exactly when a class of that name occurs whose body directly holds such a public function |
| TreeLaws.EndpointsAreDescribed | requirements_linter/http/http_routes.py:344-374 | The endpoints of a module are exactly what its top-level functions say: public name, first decorator that is a route of one of the seven verbs, path with the prefix of its router, recorded arguments |
| TreeLaws.EndpointsInOrder | requirements_linter/http/http_routes.py:356-373 | They come in the order of the functions, at most one each |
| TreeLaws.UpperAt | requirements_linter/http/http_routes.py:258 | Upper-casing moves exactly the letters a to z, character by character |
| FilePaths.NormalizeIsIdempotent | requirements_linter/core/ast_specs.py:36-48 | Normalising again changes neither the path nor the inferred layer |
| FilePaths.NormalizeIsCanonical | requirements_linter/core/ast_specs.py:36-60 | Two paths normalise alike exactly when they have the same root and the same segments apart from empty and `.` ones |
| PathLaws.NormalizedIs | requirements_linter/core/ast_specs.py:36-48 | A normalised path is its root and its segments between single slashes |
| PathLaws.SegmentsOfParts | requirements_linter/core/ast_specs.py:42-47 | Its segments are its parts between slashes, without empty ones and dots, |
| PathLaws.KeepInOrder | requirements_linter/core/ast_specs.py:44-47 | in order |
| PathLaws.LayerIsFirstSegment | requirements_linter/core/ast_specs.py:51-60 | A path has a layer exactly when it is relative and its first segment is one of the four names |
| Names.SortedSet | requirements_linter/core/ast_specs.py:72-84 | `sorted(set(...))` in whatever order the set is walked: strictly sorted, same members |
| Names.SortedIsSorted | requirements_linter/core/ast_specs.py:72-84 | The sorted listing is strictly sorted and has the same names |
| Names.SortedIsUnique | requirements_linter/core/ast_specs.py:72-84 | A set of names has one strictly sorted listing |
| PathLaws.LessIff | requirements_linter/core/ast_specs.py:72-84 | One name sorts before another exactly when at the first difference it ends or has the smaller character |
| SourceIndex.ArtifactIndex.MergeFunctionsForFile | requirements_linter/core/ast_specs.py:87-104 | Only this file's entry changes, to the sorted union; an empty list still makes an entry |
| SourceIndex.ArtifactIndex.MergeClassMethods | requirements_linter/core/ast_specs.py:107-135 | Only this class's entry changes, to the sorted union; a reserved name is refused and changes nothing |
| SourceIndex.ArtifactIndex.MergePublicClasses | requirements_linter/core/ast_specs.py:156-164 | Succeeds exactly when no class bears a reserved name, and then merges them all |
| SourceIndex.ArtifactIndex.MergeFacts | requirements_linter/core/ast_specs.py:183-223 | One file's functions, classes and routes reach its layer and no other, and nothing else changes |
| SourceIndex.ArtifactIndex.ProcessFile | requirements_linter/core/ast_specs.py:202-223 | The same from the file's tree; a file outside the known layers changes nothing |
| SourceIndex.ArtifactIndex.ExtendRoutes | requirements_linter/core/ast_specs.py:167-180 | Routes are appended in order |
| SourceIndex.ArtifactIndex.Build | requirements_linter/core/ast_specs.py:226-240 | Raises exactly when some indexed file declares a reserved class name; otherwise the index is the merge of all files |
| SourceIndex.ClassesAreUnion | requirements_linter/core/ast_specs.py:107-164 | A layer has exactly the classes and methods that some file of the layer declares, each listing strictly sorted; it is there exactly when some file belongs to it |
| SourceIndex.FunctionsAreUnion | requirements_linter/core/ast_specs.py:87-104 | The same for files and their public functions |
| SourceIndex.RoutesAreListed | requirements_linter/core/ast_specs.py:167-180 | A layer's routes are those of its files in processing order |
| SourceIndex.LayerRoutesPermute | requirements_linter/core/ast_specs.py:226-240 | In any order of the files the routes are the same multiset |
| SourceIndex.OrderDoesNotMatter | requirements_linter/core/ast_specs.py:226-240 | Processing order changes neither layers nor class and function maps, and routes only in their order |
| SourceLaws.ClassesOfSources | requirements_linter/core/ast_specs.py:226-240 | From source files: a layer is there exactly when a file belongs to it, with exactly the classes that occur in its files' trees and, for each, the public functions their bodies directly hold, strictly sorted |
| SourceLaws.FunctionsOfSources | requirements_linter/core/ast_specs.py:226-240 | From source files: exactly the files that directly hold a public function are listed, with exactly those functions, strictly sorted |
| SourceLaws.RoutesOfSources | requirements_linter/core/ast_specs.py:226-240 | From source files: the routes are exactly what the top-level functions of entrypoints files say; other layers have none |
| SourceLaws.ClashesOccur | requirements_linter/core/ast_specs.py:122-127 | Indexing raises exactly when a class with a reserved name occurs in a file of a layer |
| ParameterRows.FreezeEqualIff | requirements_linter/core/comparator.py:31-48 | Any two lists freeze alike exactly when, name by name, they have the same rows in the same order, a missing `required` read as true and a missing hint as empty |
| ParameterRows.FreezeIsCanonical | requirements_linter/core/comparator.py:31-48 | Equal frozen rows always come from the same rows up to order; and the converse for a list whose rows with equal names are equal, so for distinct names, against any other list |
| ParameterRows.OrderNeverShowsIff | requirements_linter/core/comparator.py:47-48 | All permutations of a list freeze alike exactly when its rows with equal names are equal |
| ParameterRows.SortRowsKeeps | requirements_linter/core/comparator.py:47-48 | The sort keeps the rows, puts names in ascending order, and is stable: the rows of each name keep their order |
| ParameterRows.RepeatedNamesAreNotCanonical | requirements_linter/core/comparator.py:47-48 | An instance: two rows of one name and different kinds, in both orders |
| ParameterRows.HandlerRowsAreDistinct | requirements_linter/http/http_routes.py:322-329 | On the code's side names are always distinct, so frozen rows are canonical there |
| ParameterLaws.RowsAgreeIff | requirements_linter/core/comparator.py:38-46 | Two parameters make the same row exactly when name, kind and hint agree, a missing hint read as empty, and both or neither are marked as not required |
| ParameterLaws.RowsFieldByField | requirements_linter/core/comparator.py:38-46 | The rows of a list, index by index and field by field |
| ParameterLaws.FrozenAlikeByName | requirements_linter/core/comparator.py:31-48 | Any two lists freeze alike exactly when for every name they have the same parameters, in that sense, in the same order |
| ParameterLaws.FrozenAlikeIff | requirements_linter/core/comparator.py:31-48 | Lists that freeze alike have the same parameters as often; the converse for a list without two different parameters of one name |
| ParameterLaws.SameParametersIff | requirements_linter/core/comparator.py:31-48 | Having the same parameters as often is having the same rows up to order |
| ParameterLaws.FrozenAscends | requirements_linter/core/comparator.py:47-48 | Frozen rows are in ascending order of names |
| Requirements.NothingReportedIff | requirements_linter/core/comparator.py:411-443 | Nothing is reported exactly when every atomic requirement holds: a masked requirement always lies below one that is reported |
| Requirements.AllHold | requirements_linter/core/comparator.py:411-443 | The same requirement by requirement, up the chain from parameters to route, key, entry, list and layer |
| Requirements.UnmetMembers | requirements_linter/core/comparator.py:68-125 | Exactly the required, unmasked and violated requirements are reported |
| Requirements.RoutesByKeyHas | requirements_linter/core/comparator.py:175-184 | The lookup table knows exactly the routes' keys, each with a route that has it |
| LookupLaws.KeyIs | requirements_linter/core/comparator.py:51-57 | A key is the verb in upper case, the path and the handler |
| LookupLaws.RouteTableKeepsLast | requirements_linter/core/comparator.py:175-184 | The table has exactly the keys of the routes, each with the last route of that key |
| Comparator.Comparator.CompareErrors | requirements_linter/core/comparator.py:411-443 | The loop appends, in contract order, one error for each violated requirement that no missing layer, class, file, key or route masks; errors of an earlier run stay |
| Comparator.Comparator.Compare | requirements_linter/core/comparator.py:411-451 | The same errors, with exactly the extras as warnings, in order and as often as the code lists them, or none when switched off |
| Comparator.Comparator.CompareLayer | requirements_linter/core/comparator.py:414-443 | One layer's errors; a missing layer gives a single one |
| Comparator.Comparator.CompareOneRequiredClass | requirements_linter/core/comparator.py:92-125 | A reserved or missing class gives one error and hides its methods; otherwise one for each missing method |
| Comparator.Comparator.CompareRequiredClasses | requirements_linter/core/comparator.py:128-141 | All classes of the section, in order |
| Comparator.Comparator.CompareRequiredModuleFunctions | requirements_linter/core/comparator.py:144-172 | All files of the section; an unscanned file gives one error and hides its functions |
| Comparator.Comparator.IndexCodeEndpoints | requirements_linter/core/comparator.py:175-184 | The last route with each key |
| Comparator.Comparator.CompareOneEndpoint | requirements_linter/core/comparator.py:187-222 | At most one error an entry: not a mapping, incomplete key, no such route, or other parameters |
| Comparator.Comparator.CompareRequiredEndpoints | requirements_linter/core/comparator.py:225-249 | All entries of the section; something else than a list gives one error |
| Comparator.ErrorsAreUnmet | requirements_linter/core/comparator.py:411-443 | What the loops append is the list of unmet requirements, for every contract and index |
| Comparator.LayerErrorsAreUnmet | requirements_linter/core/comparator.py:414-443 | The same for one layer, the missing layer included |
| Comparator.EntryErrorsAreUnmet | requirements_linter/core/comparator.py:187-222 | The same for one endpoint entry: its four requirements mask each other as the early returns do |
| Comparator.ClassErrorsAreUnmet | requirements_linter/core/comparator.py:92-125 | The same for one class |
| Comparator.FileErrorsAreUnmet | requirements_linter/core/comparator.py:151-172 | The same for one file |
| Extras.CollectExtrasWarnings | requirements_linter/core/comparator.py:316-399 | The warnings are exactly the extras (every public class, method, file, function and complete route of the code that the contract does not list), sorted by layer, kind and name, each once; routes in the code's order and as often as it repeats them |
| Extras.WarningsAreUnique | requirements_linter/core/comparator.py:316-399 | That contract leaves exactly one list of warnings for a contract and an index |
| WarningOrder.WarningsAreDetermined | requirements_linter/core/comparator.py:325-397 | Two ordered lists with the same members and, layer by layer, the same route keys are equal |
| Extras.LayerWarnings | requirements_linter/core/comparator.py:325-397 | Exactly the extras of one layer: classes, methods, files, functions and routes in this order |
| Extras.ClassWarnings | requirements_linter/core/comparator.py:334-349 | Exactly the unlisted classes, reserved keys apart, in order and each once |
| Extras.MethodWarnings | requirements_linter/core/comparator.py:353-363 | Exactly the unlisted methods of listed classes, by class and name, each once |
| Extras.FileWarnings | requirements_linter/core/comparator.py:365-379 | Exactly the unlisted files, then the unlisted functions of listed files, in order and each once |
| Extras.RouteWarnings | requirements_linter/core/comparator.py:381-397 | Exactly the complete route keys that the contract lacks, in the code's order and as often as it lists them |
| Extras.SpecClassMethodsMap | requirements_linter/core/comparator.py:252-268 | Class names with their methods, the last entry winning, empty names skipped |
| Extras.SpecModuleFunctionsMap | requirements_linter/core/comparator.py:271-281 | Normalised paths with their functions, the last entry winning |
| Extras.SpecHttpKeys | requirements_linter/core/comparator.py:284-293 | The keys of all mapping entries |
| LookupLaws.ClassTableKeepsLast | requirements_linter/core/comparator.py:252-268 | The contract's class table has exactly the names that are not empty, each with the methods of its last entry |
| LookupLaws.FileTableKeepsLast | requirements_linter/core/comparator.py:271-281 | The file table has exactly the normalised paths, each with the functions of its last entry |
| LookupLaws.SectionKeysAre | requirements_linter/core/comparator.py:284-293 | The declared keys are exactly those of the mapping entries |
| LookupLaws.UnlistedKeysInOrder | requirements_linter/core/comparator.py:385-397 | The routes to warn about come in the code's order and as often, without incomplete and declared keys |
| LookupLaws.WarnedKeysInOrder | requirements_linter/core/comparator.py:385-397 | The warned keys of a layer are read off the warnings in order and as often |
| Surface.NoErrorsIff | requirements_linter/core/comparator.py:411-443 | No errors exactly when every listed layer is there and meets its section, in terms of classes, files and routes |
| Surface.SectionExact | requirements_linter/core/comparator.py:316-443 | For one layer: met and without extras exactly when section and code have the same classes, methods, files, functions, routes and parameters |
| Surface.NoExtrasUnlisted | requirements_linter/core/comparator.py:334-342 | A layer that the contract does not list is without warnings exactly when it is empty |
| Surface.SameRouteIff | requirements_linter/core/comparator.py:207-216 | Against a code route, equal keys and frozen rows are the same verb, path and handler and the same parameters, field by field, up to their order |
| Surface.LinterIsExact | requirements_linter/core/comparator.py:411-451 | No errors and no warnings together exactly when contract and code have the same surface, layer by layer, parameters up to their order, unlisted layers empty |
| Growth.BuiltBucketIsPlain | requirements_linter/core/ast_specs.py:226-240 | What the exactness theorem asks of the code holds of every index that was built without raising, if no route key repeats |
| Growth.LinterIsExactOnSources | requirements_linter/core/ast_specs.py:226-240 | Exactness from source files on |
| Growth.BucketsGrow | requirements_linter/core/ast_specs.py:202-240 | One more file, wherever it comes in the order, takes no class, method, file or function away |
| Growth.RoutesAfter | requirements_linter/core/comparator.py:175-184 | How one more file changes the route found for a key: only when it overrides it, and then to its own |
| Growth.AddingFileKeepsPassingIff | requirements_linter/core/comparator.py:175-249 | A passing contract still passes after one more source file exactly when every required route that the file overrides keeps its parameters |
| Growth.NewRoutesKeepPassing | requirements_linter/core/comparator.py:175-249 | In particular when the file's route keys are all new |
| RoutePaths.NestedPrefixes | requirements_linter/http/http_routes.py:26-32 | Joining nested prefixes one by one or at once is the same exactly when one of them is blank or the inner one does not start with two slashes |
| RoutePaths.JoinNonBlank | requirements_linter/http/http_routes.py:29-32 | A non-blank prefix contributes one slash and its stripped text, whatever slashes surround it |
| PathLaws.JoinIs | requirements_linter/http/http_routes.py:26-32 | A joined path is one slash and the prefix without its outer slashes, if anything is left of it, and the route, with a slash in front unless it has one |
| PathLaws.ContractPathIs | requirements_linter/contract/spec_document.py:63-67 | When the contract's path is joined and when it is the route alone |
| RoutePaths.ContractAgreesWithCode | requirements_linter/contract/spec_document.py:63-67 | Contract normaliser and code extractor give the same path exactly when the prefix is blank, or the text is non-empty and does not start with the prefix |
| RoutePaths.RenormalisingIsIdentity | requirements_linter/contract/spec_document.py:63-67 | Normalising twice is the identity exactly when the path carries the prefix literally or the prefix is blank; one leading and at most one trailing slash are enough |
| SpecDocument.MarkdownRoundTripIff | requirements_linter/contract/spec_document.py:205-223 | Reading back what was written gives the YAML text, fences and all, exactly when no line before the block opens one |
| SpecDocument.MarkdownRoundTrip | requirements_linter/contract/spec_document.py:205-223 | With single-line title, feature and source it always does |
| DocumentLaws.WrittenText | requirements_linter/contract/spec_document.py:207-223 | The written document, text by text |
| DocumentLaws.OpeningIff | requirements_linter/contract/spec_document.py:13-16 | A line opens a block exactly when it is three backticks, blanks, the tag in any case, blanks and at most a carriage return |
| DocumentLaws.StripIs | requirements_linter/contract/spec_document.py:39 | Stripping leaves exactly what stands between the outer whitespace |
| DocumentLaws.SpaceIs | requirements_linter/contract/spec_document.py:39 | Which characters count as whitespace, by code point |
| DocumentLaws.BodyInOrder | requirements_linter/contract/spec_document.py:13-16 | The body of a block is its lines, each with its line break |
| SpecDocument.FindBlockBounds | requirements_linter/contract/spec_document.py:13-16 | A block is found exactly when some opening line is followed by a fence, and it ends at the last fence |
| SpecDocument.LastFenceIsLast | requirements_linter/contract/spec_document.py:13-16 | The body is matched greedily: no fence follows the one it ends at |
| SpecDocument.FirstBlockIsReadIff | requirements_linter/contract/spec_document.py:26-39 | A block is read up to the first fence after its opening exactly when that fence is the last of the document |
| SpecDocument.SecondFenceIsSwallowed | requirements_linter/contract/spec_document.py:26-39 | A document with a second fence whose first block is not what is read |
| SpecDocument.NormalizeHttpEndpoints | requirements_linter/contract/spec_document.py:51-78 | One row per mapping entry, in order, verb in upper case and path completed |
| SpecDocument.NormalizeEntry | requirements_linter/contract/spec_document.py:63-77 | The row of one entry |
| DocumentLaws.NormalizedFields | requirements_linter/contract/spec_document.py:63-77 | A normalised endpoint keeps handler and parameters, has its verb in upper case and its path completed |
| DocumentLaws.NormalizedInOrder | requirements_linter/contract/spec_document.py:60-78 | Entries are normalised one by one, in order, and skipped if they are no mapping |
| SpecDocument.ShorthandNamesTheRoute | requirements_linter/contract/spec_document.py:51-78 | A shorthand entry names the route that the extractor finds for the same prefix, verb and text exactly under the condition above |
| ContractNormalizer.NormalizeLayer | requirements_linter/contract/spec_document.py:81-138 | Shorthand keys that list something become sorted long-form lists with the same names and members; other long-form lists are kept, except endpoints beside an `http` block |
| DocumentLaws.HttpSectionIs | requirements_linter/contract/spec_document.py:119-125 | The endpoint section of a normalised layer, entry by entry |
| ContractNormalizer.DemandedIff | requirements_linter/contract/spec_document.py:119-125 | With an `http` mapping exactly its normalised entries are demanded, without one exactly those of the long form; a long form that is no list is complained about only without one |
| ContractNormalizer.EntryIsLostIff | requirements_linter/contract/spec_document.py:119-125 | A long-form entry is no longer demanded exactly when an `http` mapping stands beside it that does not come to the same entry |
| ContractNormalizer.LostEntryGoesUnreported | requirements_linter/contract/spec_document.py:119-125 | Whatever the code and the rest of the contract, nothing reported in the layer is about a lost entry |
| ContractNormalizer.LayerPassesWithoutLostRoute | requirements_linter/contract/spec_document.py:119-125 | For any two routes with different keys: a layer whose block has one and whose long form has the other passes on code that has only the first |
| ContractNormalizer.AllEntriesAreLostIff | requirements_linter/contract/spec_document.py:119-125 | A layer with a long form demands no endpoint at all exactly when an `http` mapping without a usable entry stands beside it |
| ContractNormalizer.LostEndpointsGoUnreported | requirements_linter/contract/spec_document.py:119-125 | An instance for any route: beside an empty block it goes unreported on empty code, without the block it is reported |
| ContractNormalizer.NormalizeLayers | requirements_linter/contract/spec_document.py:155-166 | Succeeds exactly when every layer is known and a mapping; otherwise the error is the first one in document order |
| DocumentLaws.ProblemIs | requirements_linter/contract/spec_document.py:156-165 | What is wrong with a layer: an unknown name first, then a value that is no mapping |
| ContractNormalizer.NormalizeContractDocument | requirements_linter/contract/spec_document.py:141-180 | Accepts exactly the documents with sound layers and a non-blank feature; layer errors come before a missing feature |
| ContractNormalizer.SortedClasses | requirements_linter/contract/spec_document.py:88-98 | The mapping's classes, each once, by increasing name |
| ContractNormalizer.SortedFiles | requirements_linter/contract/spec_document.py:102-115 | The mapping's files, each once, by increasing path |
| ContractNormalizer.ListedClassesAreDistinct | requirements_linter/contract/spec_document.py:88-98 | Shorthand classes never repeat, and the comparator reads the mapping back from the list |
| ContractNormalizer.ShorthandIsDistinctIff | requirements_linter/contract/spec_document.py:102-115 | A shorthand layer meets the exactness theorem's demand exactly when no two of its paths are spellings of one file |
| ContractNormalizer.ShorthandLinterIsExact | requirements_linter/contract/spec_document.py:141-180 | Exactness from the written document and the source files to the verdict |
| NetworkSync.NetworkServiceLayerManager.Monitoring | openvair/modules/network/service_layer/services.py:704-744 | One pass over any table, repeated names included, in any order of the report and whichever row a look-up hands back: name by name, one bearer follows the report or a new row appears, and each left-over listing deletes or marks one bearer; rows keep their names |
| NetworkSync.NetworkServiceLayerManager.ListNames | openvair/modules/network/service_layer/services.py:709-711 | Each name as often as rows bear it |
| NetworkSync.NetworkServiceLayerManager.UpsertReported | openvair/modules/network/service_layer/services.py:713-724 | After the first loop every reported name is reconciled, no other name is touched, and each reported name was struck from the list once |
| NetworkSync.NetworkServiceLayerManager.UpsertOne | openvair/modules/network/service_layer/services.py:713-724 | One iteration changes one bearer of one name, or adds it, and touches nothing else |
| NetworkSync.NetworkServiceLayerManager.MarkMissing | openvair/modules/network/service_layer/services.py:726-744 | A name listed n times loses n bearers if doomed by its prefix (all, if fewer); otherwise it keeps them, with at least one marked as error |
| NetworkSync.NetworkServiceLayerManager.MarkOne | openvair/modules/network/service_layer/services.py:727-744 | One look-up deletes or marks one bearer of the name and touches nothing else |
| NetworkSync.PassComposes | openvair/modules/network/service_layer/services.py:704-744 | Upserting all reported names and then pruning what is left of the list is a whole pass |
| NetworkSync.PrunedOnceMore | openvair/modules/network/service_layer/services.py:727-744 | One more look-up of a name counts as one more |
| NetworkTheorems.RowCounts | openvair/modules/network/service_layer/services.py:704-744 | How many rows each name has after a pass: a doomed name one if reported and none otherwise; any other name what it had, and one if it had none and is reported |
| NetworkTheorems.PassNames | openvair/modules/network/service_layer/services.py:704-744 | The names afterwards are the system's and the old ones that are neither there nor doomed, whatever was repeated |
| NetworkTheorems.NamesDistinctAfterPassIff | openvair/modules/network/service_layer/services.py:722-723 | Names are distinct after a pass exactly when no name but doomed ones was repeated before it |
| NetworkTheorems.ReportedInErrorIff | openvair/modules/network/service_layer/services.py:722-743 | A reported name that is not doomed has a row in error afterwards exactly when it had more than one row |
| NetworkTheorems.PassIsExact | openvair/modules/network/service_layer/services.py:704-744 | With distinct names a pass gives exactly one table up to the ids of new rows: columns and extra specs follow the report, hardware and ids stay, lost rows are deleted or marked |
| NetworkTheorems.PassStatus | openvair/modules/network/service_layer/services.py:720-743 | With distinct names, available exactly for reported rows and error for the others |
| NetworkLaws.ReportedRowAfterPass | openvair/modules/network/service_layer/services.py:768-783 | With distinct names a reported row has the reported columns and is available; an old one keeps name and hardware and takes over the extra specs, a new one has the reported hardware and no extra specs |
| NetworkLaws.LeftOverRowAfterPass | openvair/modules/network/service_layer/services.py:726-743 | A row that is not reported goes exactly if its name starts with ovs-system, vnet or veth; otherwise only its status changes, to error |
| NetworkLaws.AnyRowAfterPass | openvair/modules/network/service_layer/services.py:713-744 | In any table an old row that stays keeps name and hardware, and its columns and extra specs are both old or both reported |
| NetworkLaws.DoomedIff | openvair/modules/network/service_layer/services.py:726-735 | The names that are deleted are exactly those with one of the three prefixes |
| NetworkLaws.RemoveFirstIs | openvair/modules/network/service_layer/services.py:722-723 | Striking a name out removes its first occurrence |
| NetworkLaws.InterfaceIsReported | openvair/modules/network/utils.py:97-131 | What the report says of an interface, key by key: the last inet address and its prefix length or neither, no gateway, type, duplex and slot of physical interfaces only |
| NetworkLaws.ReportKeepsLast | openvair/modules/network/service_layer/services.py:704-706 | The report knows exactly the interfaces' names, each with its last interface |
| NetworkTheorems.SystemSecondPassIsIdentity | openvair/modules/network/service_layer/services.py:704-783 | Whatever the system reader finds, on a table with distinct names a second pass over its report changes no row |
| NetworkTheorems.SystemPassClearsExtraSpecs | openvair/modules/network/service_layer/services.py:777 | On a table with distinct names every interface the reader reports is left without extra specs, those it had before included |
| NetworkTheorems.ReaderWritesNoExtraSpecs | openvair/modules/network/utils.py:97-133 | No report of the reader has the key that the sync reads |
| NetworkTheorems.SecondPassOnRow | openvair/modules/network/service_layer/services.py:768-783 | For reports beyond the reader's: a second pass changes a row exactly when the first created it and the report has extra specs for it |
| NetworkTheorems.SecondPassIsIdentityIff | openvair/modules/network/service_layer/services.py:768-783 | So for any report at all a second pass is a no-op exactly when no interface new to the first has extra specs there |
| ExtraSpecs.Interface.UpdateExtraSpecs | openvair/modules/network/service_layer/services.py:672-692 | From distinct keys on, the rows hold exactly the wanted mapping, each key once. From any rows: the old rows of wanted keys stay as the same objects in their old order, new rows follow for exactly the wanted keys that had none, the first row of each wanted key has the wanted value and every other old row keeps its own |
| ExtraSpecs.Interface.SetSpec | openvair/modules/network/service_layer/services.py:673-684 | One key: the row a look-up finds is overwritten, or one new row comes last |
| ExtraSpecs.Interface.FindByKey | openvair/modules/network/service_layer/services.py:674-677 | The first row with the key, or none |
| ExtraSpecs.UpdatedRowsHoldSpecsIff | openvair/modules/network/service_layer/services.py:672-692 | The rows hold exactly the wanted values exactly when every repeated row of a wanted key happened to hold its value already; so always for distinct keys |
| ExtraSpecs.UpdatedKeysDistinctIff | openvair/modules/network/service_layer/services.py:672-692 | Keys are distinct afterwards exactly when no wanted key was repeated before |
| ExtraSpecs.DistinctRowsSpellSpecs | openvair/modules/network/service_layer/services.py:672-692 | For distinct old keys both always hold |
| ExtraSpecs.UpdatedValues | openvair/modules/network/service_layer/services.py:673-684 | The values row by row: the row a look-up by its key finds has the wanted value, every other row its old one |
| ExtraSpecs.WantedInOrder | openvair/modules/network/service_layer/services.py:690-692 | The filter goes row by row, in order |
| ExtraSpecs.WantedDistinctIff | openvair/modules/network/service_layer/services.py:690-692 | The filter leaves keys distinct exactly when no wanted key was repeated |
| CloneNames.GetMaxCloneNumber | openvair/libs/clone/utils.py:41-52 | The highest number in use, refused exactly when it or it plus `count` would pass 999 |
| CloneNames.HighestIsMaximum | openvair/libs/clone/utils.py:42-46 | That number is an upper bound of the names' numbers and reached by one of them unless it is zero |
| CloneNames.CloneNameRoundTrip | openvair/libs/clone/utils.py:41-69 | Reading a printed clone name gives its number back, for every base and number |
| CloneNames.HigherNumberIsNew | openvair/libs/clone/utils.py:41-69 | A name printed with a higher number than the highest is not in use |
| CloneNames.NextNamesAreNew | openvair/libs/clone/utils.py:41-69 | The next `count` names are absent, pairwise distinct and ten characters longer than the base |
| CloneLaws.CloneNumberIff | openvair/libs/clone/utils.py:41-45 | A name has a clone number exactly when it is the base, `_clone_`, digits, and at most a line break after them |
| CloneLaws.HighestIs | openvair/libs/clone/utils.py:42-46 | The highest number is that of a name, and no name has a higher one |
| CloneLaws.CreatedNameIs | openvair/libs/clone/utils.py:63-69 | A name is refused exactly when ten more characters would pass a limit that is not zero; otherwise it is the base, `_clone_` and the number, padded to three digits |
| CloneLaws.CreatedNamesAreNew | openvair/libs/clone/utils.py:41-69 | What is created for the next `count` numbers is absent, different for different numbers, and keeps the limit |
| CloneNames.LengthLimitIsKeptIff | openvair/libs/clone/utils.py:63-69 | An accepted length limit is never exceeded exactly for numbers up to 999 |
| CloneMacs.GenerateUniqueMacs | openvair/libs/clone/utils.py:104-118 | The nested loops, for any random source: an error exactly when some slot uses up its attempts, otherwise a list of exactly the allocated addresses |
| CloneMacs.TryDraws | openvair/libs/clone/utils.py:107-111 | The inner loop stops at the first free address |
| CloneMacs.FirstFreeIsFree | openvair/libs/clone/utils.py:107-116 | The address found is free, and none is found exactly when all attempts draw taken ones |
| CloneMacs.AllocateIsNew | openvair/libs/clone/utils.py:106-118 | A success is exactly `count` more addresses, all new and of the generated format |
| CloneLaws.FirstFreeIff | openvair/libs/clone/utils.py:107-111 | A slot takes the first of its draws whose address is free |
| CloneLaws.AllocationKeepsDraws | openvair/libs/clone/utils.py:106-118 | A success is a draw for each slot, the first free one after the draw of the slot before, |
| CloneLaws.KeptDrawsAreAllocated | openvair/libs/clone/utils.py:106-118 | and with such draws the loops succeed with exactly their addresses |
| CloneMacs.MacIsInjective | openvair/libs/clone/utils.py:78-83 | Different draws print different addresses |
| CloneLaws.MacIs | openvair/libs/clone/utils.py:78-83 | An address is the fixed prefix and three pairs of upper-case hexadecimal digits |
| CloneMacs.AtMostAllDraws | openvair/libs/clone/utils.py:78-83 | There are at most 16 to the sixth addresses of the generated format |
| CloneMacs.SuccessFits | openvair/libs/clone/utils.py:106-118 | Whatever the source returns, success means `count` distinct addresses outside the existing ones, and `count` plus the existing ones of the format fit in 16 to the sixth |
| CloneMacs.OneSlotFailsIff | openvair/libs/clone/utils.py:107-116 | A single slot fails exactly when all its attempts draw existing addresses |

## Left out

- Random ids: UUIDs are fresh numbers that are never reused; clocks, reports, random draws and the fate of domain calls are parameters.
- Scheduler, crontab internals: the domain layer is a map from id to its enabled flag, so duplicate items, the comment search by substring and removal while iterating are not modelled, nor schedule and command texts in the crontab.
- Scheduler, concurrent requests: the protocol serves one request at a time (any number of passes run beside it), as the queue consumer does; the active-job cap is not claimed under interleaved passes, where a stale crontab report can re-enable a job that was just disabled.
- Scheduler rows are values in a map, so aliasing between session objects is not captured; the protocol's flush writes changed columns only.
- Reading jobs (`get_job`, `get_all_jobs`) hands rows out unchanged through the serialiser; both are left out.
- RPC liveness: the code waits once, so only safety is decided by it; queue setup, priorities and reconnection are left out, and the server is a single process.
- RPC JSON is opaque: only the empty object is told apart.
- Linter, untyped YAML: values of wrong types inside entries (where the code coerces to text, skips, or raises a KeyError) are left out, except where a section, entry, layer or document is no list or mapping; YAML dumping and loading are the identity.
- Linter messages are structured values instead of texts.
- Syntax trees: classes are listed depth first, the code's walk is breadth first, which no index can show; the files come in any order, the code sorts them by path; the annotation text of an argument is given, and variadic arguments are ignored as in the code.
- SpecDocument: upper-casing covers ASCII letters only.
- CloneNames: `\d` also matches digits outside ASCII in the code; the model reads ASCII digits.
- CloneMacs: the module as it stands uses names (`secrets`, `Set`, `List`) it does not import; the model takes them as meant.
- CloneMacs.GenerateUniqueMacs: the order of the list is left open, as it comes from a set.
- Network: rows are values in a map and extra specs of a row are its key-value mapping in `NetworkSync`, while `ExtraSpecs` has the row objects; the system commands behind the reader are left out.
- ExtraSpecs.Interface.UpdateExtraSpecs: the order among the new rows is left open.
- Network, bridges: `_check_existance_and_port_compabilities` refuses a bridge whose name is taken or whose port is itself a bridge; the bridge requests set one row's status and pass the work on. Both are left out.
- The image service, the web endpoints, request validation and the wrappers of libvirt, qemu, parted and SNMP are not part of this model.
