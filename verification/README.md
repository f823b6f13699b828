# gl-axi verification

A Dafny model of the parts of gl-axi whose correctness spans several functions, several calls or several processes, with proofs.

| module | what it models |
|---|---|
| Bytes, Utf8, Streams | byte strings, the UTF-8 grammar of section 4 of RFC 3629, readers and writers with arbitrary scripts |
| LoginMonitor | the relay of terminal output that stops at the plaintext-storage warning, for every cutting into reads |
| NativeTransfer | the credential scanner and the request and byte budgets of the native client |
| BoundedText, Discussions | truncation at a character boundary; fair sharing of note slots and body bytes |
| UniqueJson | rejection of duplicate JSON names at every depth |
| ZipDirectory, Paths, Archive, Download | the bounded ZIP directory, the collision table, and the staged download with rollback and no-replace publication |
| CommitGraph, LocalStack, StackRuns | ancestry and merge bases, stack records and their guarded publication, and every run of concurrent processes |
| Labels, IssueEdit, IssueEditApply | label deltas against provider semantics, and the one-write edit protocol |
| Merge, Deletion | one-mutation protocols against a provider that loses answers |
| ListReads, CreatedSearch | bounded pagination with truthful flags; creation order independent of provider order |
| Wrappers, Fields, Sorting, Arrangements, ObjectIds, Rejections | options, splitting and joining, sorting, order-independence, object names and refusal statuses shared by the above |

Code that works step by step is modelled by methods and classes that change their own state and are proved against a specification:
a function of the whole input, or a predicate over the log of everything sent and received. The lemmas then state what that
specification promises. Environment choices (reads, writes, other processes, lost answers, cancellation) are nondeterministic or
parameters, so each contract holds for all of them.

Three results qualify what a reader might expect of the code:

- On Unix a removal and the publication act on names, and each owned directory has two windows in which its name may be rebound:
  between creating and opening it, and between examining it and the unlink or rename. A removal takes something other than what
  was created exactly when just one of its two windows was hit, or both were and the name does not mean the created directory again
  at the unlink (`Download.Transaction.Close`, `Download.Transaction.MisledRemoval`); the same holds of what is published
  (`Download.Transaction.Commit`). Files have no first window. A publication replaces nothing, whatever happens in the windows.
- With a limit of 1000, `fetchList` never reports a catalogue of exactly 1000 items as complete: ten full pages do not prove the end
  (`ListReads.FixedCatalogue`).
- After malformed UTF-8 the outcome of the login relay can depend on how the stream was cut into reads of at most 4096 bytes: how much
  was forwarded, and whether a later warning was noticed, which changes the error reported. `LoginMonitor.CuttingMatters` and
  `LoginMonitor.ReportMatters` say exactly when; `LoginMonitor.CutsDiffer` gives two streams.

`dafny verify dfyconfig.toml` checks everything.

## Model

| member | source | states |
|---|---|---|
| Utf8.ExtensibleMeaning | internal/delegate/glab/login_monitor.go:139-154 | The scan finds nothing wrong exactly when some continuation turns the bytes into well-formed NUL-free UTF-8 |
| Utf8.WellFormedIsWhole | internal/delegate/glab/login_monitor.go:139-154 | Every well-formed NUL-free text is scanned to its end, so the kept part is the longest such prefix |
| Utf8.WholePrefixIsWhole | internal/delegate/glab/login_monitor.go:139-154 | What the scan accepts is well formed, has no NUL and is accepted again in full |
| Utf8.ScanMonotone | internal/delegate/glab/login_monitor.go:139-154 | More bytes never shorten what was accepted, and a scan that stopped on malformed bytes stays there |
| LoginMonitor.CompleteUtf8Prefix | internal/delegate/glab/login_monitor.go:139-154 | Splits exactly before a character cut short; refuses exactly what no continuation repairs |
| LoginMonitor.WarningCutoff | internal/delegate/glab/login_monitor.go:156-172 | Finds the first warning of the window and the new bytes, and counts its end from the new bytes |
| LoginMonitor.WindowSuffices | internal/delegate/glab/login_monitor.go:156-182 | Occurrences in the kept window and the new bytes are the occurrences in everything forwarded and the new bytes |
| LoginMonitor.CutoffMeaning | internal/delegate/glab/login_monitor.go:156-172 | The cutoff is where the first warning of the whole stream ends, not just of the window |
| LoginMonitor.ExpectedIsSafe | internal/delegate/glab/login_monitor.go:43-46 | The outcome owed for a stream is a well-formed prefix within the cap that holds the warning at most once, as its end |
| LoginMonitor.ExpectedIsComplete | internal/delegate/glab/login_monitor.go:43-46 | That outcome withholds nothing without cause: all of a good stream, all up to the first warning, at most three bytes short of the cap |
| LoginMonitor.RelayChunk | internal/delegate/glab/login_monitor.go:71-123 | One read keeps the relay in step with the whole stream, or settles its outcome for every way the stream may go on; a write that goes wrong is reported, and only then is less of the read forwarded |
| LoginMonitor.FinishRelay | internal/delegate/glab/login_monitor.go:125-135 | At the end of the stream a relay that has not stopped reports a failed read, or else a character cut short, and nothing otherwise; one that has stopped keeps its outcome |
| LoginMonitor.RelayLoginOutput | internal/delegate/glab/login_monitor.go:47-137 | For every script of reads and writes: it reads up to the first read that ends, fails or is the hundredth empty one in a row; only the whole stream, forwarded, and no failed or stalled read before its end, goes without a warning and without an error; when no write goes wrong the outcome is the function of how the stream is cut, the one owed for the whole stream when it is well formed up to its bound, and a failed or stalled read is reported unless what was read before already stopped the relay; a write that goes wrong is reported, with what was forwarded before it and some of its chunk; the forwarded bytes are always a capped prefix with the warning only as its suffix |
| LoginMonitor.RelayedMeets | internal/delegate/glab/login_monitor.go:47-137 | For every cutting of a stream the outcome is the expected one, up to what malformed bytes before the bound leave open: the same error, no more forwarded, and no warning that is not there |
| LoginMonitor.CuttingResult | internal/delegate/glab/login_monitor.go:52-120 | For any cutting of a stream with malformed bytes before the bound: exactly the whole characters read before the read that brings them to notice are forwarded, and the warning is noticed exactly if that read reaches its end |
| LoginMonitor.CuttingMatters | internal/delegate/glab/login_monitor.go:47-123 | Two cuttings into reads of at most 4096 bytes lead to different outcomes if and only if there are malformed bytes before the bound and also a whole character before them or a warning within reach of one read |
| LoginMonitor.ReportMatters | internal/delegate/glab/login_terminal.go:172-190 | The error reported to the user depends on the cutting if and only if, after malformed bytes, the first warning within the cap ends at most 4096 bytes after the last byte before they are noticed |
| LoginMonitor.ReadsCut | internal/delegate/glab/login_monitor.go:51-54 | Reads of at most a buffer make up such a cutting of the stream |
| LoginMonitor.CutsDiffer | internal/delegate/glab/login_monitor.go:84-120 | Two concrete streams and their cuttings: one changes how much is forwarded, the other whether the warning is noticed |
| Streams.WriteFull | internal/delegate/glab/login_monitor.go:184-196 | Writes everything or a prefix, and reports failure exactly when a write failed, claimed too much or took nothing |
| NativeTransfer.ScanSuffices | internal/productnative/client.go:365-384 | A secret shows in the kept tail and the new bytes exactly when it shows in everything written |
| NativeTransfer.AdmitsAllMeansClean | internal/productnative/client.go:365-384 | For every cutting of a text into writes, all are accepted exactly when no nonempty secret form occurs anywhere in the text |
| NativeTransfer.CredentialWriter.Write | internal/productnative/client.go:371-384 | Refuses exactly the write that completes a secret, forwards nothing of it, and keeps just enough tail |
| NativeTransfer.CopyLimited | internal/productnative/client.go:204-206 | The destination holds the scanned part of the bounded body, all of it unless a write was refused or failed, and never a whole secret |
| NativeTransfer.Client.Receive | internal/productnative/client.go:202-222 | The bytes read are charged to one budget; success means the exact whole body within the bound, of the declared length; a failure is Canceled exactly when the context is done and else Upstream |
| NativeTransfer.Client.Transfer | internal/productnative/client.go:137-223 | One request exactly when the context is not done, fewer than 64 were made and the byte budget is not spent, else none and no charge; every honest answer that fits succeeds, and every other answer fails with the error of its status, headers or context |
| BoundedText.RuneStartIsBoundary | internal/product/normalize.go:773-776 | In well-formed text a byte is no continuation byte exactly when the bytes before it are whole characters |
| BoundedText.BoundText | internal/product/normalize.go:762-778 | Refuses exactly invalid text; the walk back stops at the longest whole-character prefix that leaves room for the marker |
| BoundedText.BoundedPromises | internal/product/normalize.go:762-778 | The bounded text is valid, fits the limit whenever the marker does, and is unchanged when it fits as it is |
| BoundedText.CutLosesLittle | internal/product/normalize.go:769-777 | A cut text is a beginning of the value with the marker, and at most three bytes short of the limit |
| BoundedText.CutKeepsTheMost | internal/product/normalize.go:769-777 | No longer whole-character prefix would leave room for the marker |
| Discussions.ShareSlots | internal/product/discussions.go:806-831 | The rounds end with exactly the cap kept, at least one note and no more than its own for each thread, in water-filling shape |
| Discussions.WaterFillingUnique | internal/product/discussions.go:795-799 | The shape and the total determine the allocation |
| Discussions.AllocationUnique | internal/product/discussions.go:800-837 | There is only one allocation that fits a list of threads |
| Discussions.TrimNotes | internal/product/discussions.go:806-837 | Each thread is cut in place to a prefix of its notes, by that allocation |
| Discussions.QuotientNeverDecreases | internal/product/discussions.go:839-856 | Spending at most the running quotient never lowers it |
| Discussions.AllowancesNeverDecrease | internal/product/discussions.go:839-856 | Along the threads the allowance of a later body is never smaller than that of an earlier one |
| Discussions.ShareAt | internal/product/discussions.go:839-856 | Every body becomes its text bounded by its own allowance, valid and nonempty; from lengths and totals alone, it is whole exactly if it fits the limit and, times the notes still to come, the bytes still left |
| Discussions.ShareIsFair | internal/product/discussions.go:839-858 | For every body, from lengths and totals alone: whole exactly if it fits the limit and, times the notes still to come, the bytes still left; else a beginning with the marker that fits so too, is at most three bytes short and leaves no room for one more character |
| Discussions.BytesAreConserved | internal/product/discussions.go:839-856 | What is shared and what is left always add up to the budget |
| Discussions.BodiesWithinBudget | internal/product/discussions.go:839-858 | For up to a thousand notes the marker always fits, no body exceeds its allowance, the total stays within two mebibytes, and a body of at most 2097 bytes is never cut |
| Discussions.CutMeansChanged | internal/product/discussions.go:850-854 | Truncation is reported exactly when some body was changed |
| Discussions.BoundThread | internal/product/discussions.go:842-857 | One thread: refused exactly for an invalid body, else its share of the running quotient, with note identities kept |
| Discussions.BoundBodies | internal/product/discussions.go:839-858 | All threads in place: refused exactly for an invalid body, else the whole body pass, fair to every body, within the total, and truncated exactly if a body changed |
| Discussions.BoundDiscussionOutput | internal/product/discussions.go:800-859 | Notes first, then bodies: too many threads, an invalid body, or the one allocation of notes, with every body whole exactly if its length times the notes still to come fits in the bytes still left and is within the limit, cut ones at most three bytes short, and truthful flags |
| UniqueJson.ConsumeTokens | internal/product/discussions.go:709-753 | On the tokens of any value followed by anything, consuming leaves exactly the rest if and only if every object at every depth has distinct names |
| UniqueJson.ConsumedIsValue | internal/product/discussions.go:709-753 | Whatever is consumed is the token stream of a value with unique names |
| UniqueJson.ConsumeUniqueJsonValue | internal/product/discussions.go:709-753 | The recursive descent over the decoder does exactly that and leaves the decoder right after the value |
| UniqueJson.ValidateUniqueJson | internal/product/discussions.go:691-707 | A document is accepted exactly when it is one value of the required kind with unique names throughout |
| ZipDirectory.ValidateZipDirectory | internal/safedownload/download.go:265-301 | Accepts exactly when the last end record and its comment end the file, disk and count limits hold, and the declared headers tile the directory |
| ZipDirectory.AcceptableIsWritten | internal/safedownload/download.go:265-301 | The accepted files are exactly those that a writer of the format writes within the bounds: a body, central headers with their declared lengths, and one last end record with its little-endian counts, size, offset and comment |
| ZipDirectory.TilesDirectory | internal/safedownload/download.go:289-300 | The walk accepts exactly the tilings and never looks outside the directory |
| ZipDirectory.TailSearchSuffices | internal/safedownload/download.go:267-272 | Searching the last 65557 bytes finds the last record of the file whenever that record could be accepted |
| ZipDirectory.TilingCovers | internal/safedownload/download.go:289-300 | The headers of a tiling leave no byte of the directory uncovered and none covered twice |
| Archive.TableDecides | internal/safedownload/download.go:209-218 | The table keyed by folded path rejects a path exactly when it collides with one seen before |
| Archive.RecordPaths | internal/safedownload/download.go:208-218 | One entry with its ancestors is admitted exactly when it collides with nothing before it |
| Archive.ConsistentIsTree | internal/safedownload/download.go:194-231 | Archives without collisions are trees under ASCII case folding: no equal entries, no file above another path, one spelling per directory |
| Archive.TreeIsConsistent | internal/safedownload/download.go:194-231 | And every such tree passes the collision table |
| Archive.TableCounts | internal/safedownload/download.go:232-240 | Counting rows of the table counts distinct paths and distinct directories |
| Archive.HeaderStep | internal/safedownload/download.go:200-230 | The checks of one entry after another are the limits on every header and on the total declared size |
| Archive.InspectHeaders | internal/safedownload/download.go:196-231 | The first pass succeeds with the declared totals and the table, and fails only on a bad header, a collision or cancellation |
| Archive.InspectArchive | internal/safedownload/download.go:175-261 | Success means the archive is acceptable and the receipt is its files and bytes; failure without cancellation means it is not |
| Archive.ListDirectories | internal/safedownload/download.go:312-327 | The directories of the archive, inferred and explicit, each once, in bytewise order |
| Archive.ParentsFirst | internal/safedownload/download.go:311-335 | In that order the directory a directory lies in is listed, and earlier |
| Archive.FileParentListed | internal/safedownload/download.go:357-360 | The directory a file lies in is listed |
| Archive.NoDirectoryTwice | internal/safedownload/download.go:328-352 | No directory name is created twice, even where case is ignored |
| Archive.NoFileTwice | internal/safedownload/download.go:353-373 | No file is created under the name of a directory, even where case is ignored |
| Paths.FoldTogether | internal/safedownload/download.go:211 | Names fold to one key exactly if they differ at most in the case of ASCII letters |
| Paths.DirSortsFirst | internal/safedownload/download.go:327-335 | A directory is a proper prefix of what lies in it and sorts strictly before it |
| Download.Prepare | internal/safedownload/download.go:67-100 | Whoever else writes, the transaction starts with a look at which the destination name was absent, then one new staging directory made under a free name and opened; a failed start leaves nothing when nobody interferes and what is there can be opened, also if the directory cannot be made; it starts exactly if both names are free when no call fails by itself |
| Download.Transaction.OpenHandle | internal/safedownload/download.go:102-121 | Every open handle is the recorded directory: one that is reopened was found under its name, in the handle of its parent, with the recorded identity; a directory is reached whenever its name and those above it are left alone |
| Download.Transaction.Write | internal/safedownload/download.go:132-137 | Only a plain file name in an open transaction is staged, as one new file below the staging directory, and only when its source delivers what it promised; it is staged whenever that name is free, nothing is canceled, nobody interferes and no call fails by itself |
| Download.Transaction.WriteFile | internal/safedownload/download.go:139-167 | A staged file is owned once it is created and examined, below an owned directory, also when its copy then fails |
| Download.Transaction.CreateDirectories | internal/safedownload/download.go:328-352 | Each directory of the list is created, below the one owned for its parent, and every parent lookup is present |
| Download.Transaction.CreateFiles | internal/safedownload/download.go:353-373 | Each file is created below the directory owned for its parent |
| Download.Transaction.Extract | internal/safedownload/download.go:303-375 | Nothing is created unless the whole archive is acceptable; success stages exactly its directories and then its files; when nobody interferes and no call fails by itself, an uncanceled extraction into a new transaction succeeds exactly for an acceptable archive |
| Download.Transaction.Commit | internal/safedownload/download.go:377-412 | Whoever else writes, the last two looks are the verification, which finds the recorded staging directory under its name, and the rename, at which the destination name is free and takes over what the staging name means; that is the staging directory created, unless its name was rebound before it was opened or between those two looks; a failure binds nothing |
| Download.Transaction.RemoveEntry | internal/safedownload/download.go:420-434 | One owned entry is undone: taken whenever at each look its name and those above it were left alone and, for a directory, nothing lay in it at the last one, as long as what is there can be examined and removed; reported undone only if taken or seen to be gone; what is taken is what was created, unless its name was rebound in one of its two windows |
| Download.Transaction.Close | internal/safedownload/download.go:414-445 | Without commit and interference the file system is back where it began as long as what is there can be opened, examined, closed and removed, whatever creation, copy or rename failed before; under interference exactly the listed removals happen, each entry left alone at every look is taken, clean means each was taken or seen to be gone, and each takes what was created unless one of its two windows was hit; after commit nothing is removed |
| Download.LastBinding | internal/safedownload/download.go:421-433 | Undone in reverse, each directory is empty by its turn and the other entries are untouched |
| Download.OwnedSnoc | internal/safedownload/download.go:156 | A newly owned entry is bound to a name of its own on top of what was there |
| Download.FileSystem.RemoveOwned | internal/safedownload/files_unix.go:82-104 | What a removal takes away is decided by the bindings when it examined the name and when it unlinked it |
| Download.FileSystem.MakeDirectory | internal/safedownload/files_unix.go:69-74 | The name was free when the new directory was made, and what is opened and recorded is whatever the name means by then |
| Download.Transaction.MisledRemoval | internal/safedownload/files_unix.go:69-104 | For every owned directory both ways in which its rollback takes a foreign directory that the transaction never created: rebound before it is opened and then left alone, or rebound between examination and unlink |
| Download.UndisturbedTakesOwn | internal/safedownload/download.go:420-434 | If no removal had one of its windows hit, everything removed was created by the transaction |
| Download.FileSystem.PublishDirectory | internal/safedownload/publish_linux.go:8-13 | Two looks, whoever else writes: the staging name is found to mean the recorded directory, then the destination is free and takes over exactly what the staging name means; a publication never replaces a name |
| Download.DownloadArchive | internal/product/downloads.go:203-270 | All or nothing: when nobody interferes and what is there can be opened, examined, closed and removed, a download that is not published has changed nothing at all, whatever failed, and a published one only adds the archive under the destination; when no call fails by itself, exactly an acceptable archive is published, unless a name is taken or the download canceled |
| CommitGraph.UniqueMergeBase | internal/localstack/stack.go:270-277 | The maximal common ancestors are exactly the parent head if and only if it is an ancestor of the branch head |
| CommitGraph.AncestorTransitive | internal/localstack/stack.go:270-277 | Ancestry is transitive |
| CommitGraph.ChainReaches | internal/localstack/stack.go:238-284 | When each head is an ancestor of the next, the base reaches every member |
| LocalStack.Validate | internal/localstack/stack.go:74-88 | Accepts exactly a bounded chain of distinct branches outside its base, each bound to a merge request of its own or none |
| LocalStack.Compatible | internal/localstack/stack.go:306-320 | Accepts exactly records with the same identity, base and chain that keep every nonzero binding |
| LocalStack.ExtendsTransitive | internal/localstack/stack.go:306-320 | Compatibility composes; with reflexivity it is a preorder |
| LocalStack.Repo.ReadRef | internal/localstack/stack.go:192-223 | What is read was so at some instant of the call; a ref read under its lock is exactly that; one that is symbolic all along is refused, and one that resolves to nothing is absent; the exact reading when nothing interferes |
| LocalStack.Repo.CompareHeads | internal/localstack/stack.go:258-283 | Every node carries its parent and head; it is missing exactly without a head, over a missing parent exactly if only that has none, ready exactly if the parent head is an ancestor of its own; the snapshot is valid exactly when the heads stand in one line |
| LocalStack.Repo.Inspect | internal/localstack/stack.go:238-284 | Every head and the current branch in a snapshot were so at some instant of the inspection; it is valid exactly when every head exists and each is an ancestor-or-self of the next |
| LocalStack.ReadyMeansHealthy | internal/localstack/stack.go:258-283 | All nodes are ready over an existing base exactly when the heads form a chain |
| LocalStack.Repo.CommitMetadata | internal/localstack/transaction.go:21-92 | Under any interleaving with writers that respect locks, a publication is one step of the repository that finds every guarded name as inspected and leaves the ref at the new object; confirmation implies publication, a conflict publishes nothing; when nothing interferes it is confirmed exactly if the guards hold |
| LocalStack.Repo.InspectGuards | internal/localstack/transaction.go:61-79 | When every guarded ref was read under its lock as expected, all of them are as expected together at the end |
| LocalStack.Repo.Load | internal/localstack/stack.go:162-191 | The loaded record is what the object holds that the metadata ref named at some instant of the call; it is well formed and belongs to the project |
| LocalStack.Repo.Save | internal/localstack/stack.go:325-380 | Whatever is published extends the loaded record, over exactly the inspected heads, while the metadata ref still holds the old object; when nothing interferes it succeeds exactly for a record in order over a snapshot that has not moved |
| LocalStack.Repo.Register | internal/product/stack.go:154-224 | Init and link publish only over a record that the metadata ref named, and heads that the branches had, at instants of this call before the commit, compatible and in one line; refusals publish nothing; when nothing interferes they succeed exactly if the record is in order, its branches stand in one line and the stack is new or compatible |
| StackRuns.BindingsArePermanent | internal/localstack/stack.go:306-380 | Over every run a registered stack stays registered with the same base and chain, and no nonzero binding is ever unset or changed |
| StackRuns.PublicationsExtend | internal/localstack/stack.go:306-380 | Every later publication extends every earlier one: no registration is lost or replaced |
| StackRuns.OnlyPublishedRecords | internal/localstack/stack.go:306-380 | From an absent stack, whatever is registered is one well-formed record that some process published |
| StackRuns.PublishedChainIsLive | internal/localstack/transaction.go:14-20 | At the commit instant every branch is an ordinary ref and every later branch descends from every earlier one |
| Labels.ValidateRequestedIssueLabels | internal/product/commands_issue_edit.go:212-246 | Accepts exactly bounded requests that name each label once and none both ways, up to case |
| Labels.CanonicalIssueEditLabels | internal/product/commands_issue_edit.go:582-607 | Accepts exactly bounded lists of valid names without case duplicates, and sorts them |
| Labels.SortedFormsAgree | internal/product/commands_issue_edit.go:582-607 | Two usable lists have one sorted form exactly when they hold the same names |
| Labels.ResolveIssueEditLabels | internal/product/commands_issue_edit.go:480-507 | Succeeds exactly when each name means one catalogue label up to case and spells it exactly |
| Labels.ResolvedNames | internal/product/commands_issue_edit.go:480-507 | Resolution keeps the requested names, each as often as requested |
| IssueEdit.PlanRemovals | internal/product/commands_issue_edit.go:634-644 | Exactly the attached labels are removed; a label attached in another spelling is refused |
| IssueEdit.PlanAdditions | internal/product/commands_issue_edit.go:645-655 | Exactly the unattached labels are added; a label attached in another spelling is refused |
| IssueEdit.ScopesFree | internal/product/commands_issue_edit.go:656-670 | The scope check refuses exactly when a new label shares its scope with another label that would stay |
| IssueEdit.BuildIssueEditPlan | internal/product/commands_issue_edit.go:609-690 | A plan exists exactly when no label is misspelt, no scope clashes and the result is canonical; it changes what was asked and nothing else |
| IssueEdit.JoinedNamesSurvive | internal/product/commands_issue_edit.go:681-682 | Splitting the comma-joined names recovers them |
| IssueEdit.PayloadReachesDesired | internal/product/commands_issue_edit.go:609-690 | Removing and then adding, with scoped additions evicting their scope, the payload turns the observed labels into exactly the desired ones |
| IssueEdit.PlanIsIdempotent | internal/product/commands_issue_edit.go:609-690 | Planning the same request on the desired record plans nothing |
| IssueEdit.ValidateIssueEditIdentity | internal/product/commands_issue_edit.go:533-559 | Accepts exactly the expected issue, place and state with usable content |
| IssueEdit.ValidateIssueEditPoststate | internal/product/issue_edit_apply.go:121-134 | Accepts exactly the same issue, not older, with the desired title, description and label set |
| IssueEdit.ProviderResultIsAccepted | internal/product/issue_edit_apply.go:121-134 | What the provider makes of the payload is accepted, with the labels in any order |
| IssueEditApply.ValidateIssueEditDescription | internal/product/commands_issue_edit.go:564-571 | Refuses exactly descriptions with a line whose first visible character is a slash |
| IssueEditApply.JudgeAnswer | internal/product/issue_edit_apply.go:42-57 | An answer verifies only with the exact poststate, and is unsafe exactly when it is intelligible and wrong |
| IssueEditApply.ConfirmLabels | internal/product/issue_edit_apply.go:72-85 | Labels are confirmed exactly when they resolve to the same catalogue entries again |
| IssueEditApply.ApplyIssueEdit | internal/product/issue_edit_apply.go:21-99 | At most one write, and none exactly for a description that could run or a run cut short before it; then the issue is read unless the time is over, the labels exactly if the issue reads as planned; success exactly if the issue was read back as planned in time with the same labels and the answer does not speak against it, updated if that answer held an issue and else reconciled |
| IssueEditApply.Prepare | internal/product/commands_issue_edit.go:255-326 | Ready exactly when the issue really read as expected twice, one reading after the other, alike, its labels resolve alike twice, a plan exists and the run is not cut short; it stops exactly for a reading it made or for that |
| IssueEditApply.ExecuteIssueEdit | internal/product/commands_issue_edit.go:255-341 | The calls of a run are exactly the listed ones, at most one a write, none for previews and unchanged plans; reported success means the issue was in the reviewed state at two instants before the write and at one after it had everything requested and nothing else changed |
| IssueEditApply.SuccessDelivers | internal/product/issue_edit_apply.go:86-92 | A reading in the planned state is the request delivered |
| Merge.Session.AdmitPage | internal/product/commands_merge.go:445-458 | A page is admitted exactly when no check repeats, all are green and the count fits |
| Merge.Session.LoadChecks | internal/product/commands_merge.go:420-467 | Success means every page to the short last one, each check once and green, and failure happens exactly for something wrong in the pages read |
| Merge.Session.LoadMergeSnapshot | internal/product/commands_merge.go:406-469 | A snapshot covers every job and every bridge of the exact successful head pipeline, and there is none exactly when a page or the pipeline is unfit |
| Merge.Session.Preflight | internal/product/commands_merge.go:203-281 | Before the write: the project policy, the open request, every check green, and the same request and pipeline read once more; it stops exactly for a logged reading that is not in order, an unprepared body or a cancelation at the end |
| Merge.Session.Reconcile | internal/product/commands_merge.go:590-617 | Success exactly if the one reading afterwards, within the limits, shows the squash; rejection exactly if a recognised status refused the write and that reading shows the request still open; otherwise ambiguous |
| Merge.Session.ExecuteMerge | internal/product/commands_merge.go:196-306 | A run without a write only reads; a run with one is guarded, succeeds exactly if its answer or the reading after it shows the squash, with that record, is rejected exactly if the answer failed with one of nine statuses and that reading shows the request still open, with that status, and is ambiguous otherwise; it refuses exactly for a reading that is not in order, an unprepared body or a cancelation; a reported rejection merged nothing |
| Merge.OneWrite | internal/product/commands_merge.go:283-305 | Every run that writes writes once, and only a reading of the request follows |
| Deletion.Session.Preflight | internal/product/commands_delete.go:221-272 | Before the request: active account, exact parent, release tag, and the reviewed resource read twice; it ends early exactly for a logged reading that is not in order, or when canceled with all in order |
| Deletion.Session.ReadBack | internal/product/commands_delete.go:306-342 | Not found counts only with a 404 and the same parent, account and release tag read again |
| Deletion.Session.Delete | internal/product/commands_delete.go:208-351 | One request, sent exactly when every logged reading is in order and nothing is canceled; deleted exactly if the acknowledgment is exact, the resource is read back as a 404 and parent, account and tag read again are those before; rejected exactly without acknowledgment and with a listed status; every field of the receipt follows from what was read; rejected means this run deleted nothing |
| Deletion.ReportTells | internal/product/commands_delete.go:274-350 | The receipt in terms of the readings alone, both ways: deleted, rejected or ambiguous; not found, present, unverified or not checked; acknowledged, attempted, status, effect and tag |
| Deletion.OneRequest | internal/product/commands_delete.go:281-283 | Every run that asks for a deletion asks once, with nothing but readings before and after |
| ListReads.FetchList | internal/product/commands_read.go:12-71 | Pages 1, 2, ... at one width while full and needed; the items are the gathered prefix and the state tells the truth about it, also after a failure |
| ListReads.FixedCatalogue | internal/product/commands_read.go:12-71 | Against a fixed catalogue: its first items, complete exactly when it is within the limit and ends before the last full page, truncated exactly when incomplete or cut |
| ListReads.WithinLimits | internal/product/commands_read.go:15-19 | Within the command limits that is exactly the first min(n, limit) items |
| ListReads.OnlyRefusalsFail | internal/product/commands_read.go:29-41 | Against a fixed catalogue a read fails only on a page the normaliser refuses |
| CreatedSearch.AdmitPage | internal/product/discovery.go:375-397 | The page reader accepts exactly pages that keep all IDs distinct and all stamps usable |
| CreatedSearch.OneArrangement | internal/product/discovery.go:406-411 | With that evidence every sort gives the same arrangement |
| CreatedSearch.ShownIsNewest | internal/product/discovery.go:406-422 | The specified answer holds the newest hits, newest first, judged by their creation instants and IDs alone |
| CreatedSearch.FetchCreatedRepoSearch | internal/product/discovery.go:368-422 | Answers exactly when the complete set is proved within the bounds and carries evidence; then with distinct hits of it, each created later than the next or at the same instant with a larger ID, each newer in that sense than every hit left out, and with flags that follow from the number of hits and the shortened fields |
| CreatedSearch.ProviderOrderIsIrrelevant | internal/product/discovery.go:365-422 | Catalogues that are rearrangements of each other lead to the same hits in the same order, or to none from either |

## Left out

- HTTP, TLS, redirects, child processes, terminals, keyrings and the operating system: they appear as scripted readers and writers, nondeterministic providers and a file system of (directory, name) bindings.
- Deadlines, contexts and cancellation are inputs: for each point where the source looks, a parameter or a counter says what it sees.
- Decoding of JSON, DEFLATE, CRC, MIME types and time stamps: the model starts from decoded records, from token streams, or from what reading an entry yields.
- Unicode tables, URL and branch-name syntax, hashes and `strings.EqualFold`: parameters. Equality under folding is equality of an arbitrary key, so it is any equivalence relation.
- The login relay's mutex and its parallel reader of terminal input; the state it guards is modelled.
- LoginMonitor.RelayLoginOutput: with malformed bytes before the bound the outcome is not one for all cuttings but a function of the cutting, because the source drops the whole chunk in which it finds them and stops before a later warning; `LoginMonitor.CuttingMatters` says exactly for which streams that shows.
- Discussions.BoundDiscussionOutput: above the cap it requires a note in every thread, which internal/product/discussions.go:477-482 establishes for every thread that reaches it; an empty one would be sliced past its end.
- NativeTransfer.Client.Transfer: starts after the request was validated (internal/productnative/client.go:225-293), whose bounds it requires; the second scan of decoded JSON strings in `Do` is not modelled.
- Download.FileSystem: identities are never reused, unlike inode numbers. Windows handles and the file contents are not modelled.
- Download.Transaction: a created file that cannot be examined is not owned and stays behind, as in the source; the full rollback is stated for file systems where opening, examining, closing and removing what is there succeed (`examines`), while creating, copying and renaming may fail.
- LocalStack: the working-directory checks of `Open` and `identity`, the directory lock of this program, `Verify`, `Checkout` and the merge-request observation of `stack link`.
- IssueEditApply: the project record is given, and the pages and byte budget of the label catalogue are one reading that may fail.
- Merge.Session: the wording, retry hints and authority text of results; a failed request carries a status and no body.
- Merge and Deletion take from the provider only this: it does not perform what it refuses with a recognised status, except a snippet deletion answered with 400. That a receipt of a deletion means that this request made it holds only for a provider that acknowledges nothing else (`honest`).
- ListReads: the upstream version recorded with each page.
- Output formatting, error texts, command registry, configuration, hooks, self-update, the pipeline watcher and the CI-variable and note commands: other members of the same families, with fewer branches.
