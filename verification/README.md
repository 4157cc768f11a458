# OpenWA, modelled and proved in Dafny

OpenWA is a WhatsApp gateway: a NestJS server with a plugin system and a React dashboard. This project models the
self-contained algorithms and state machines in it and proves what they are for. Plain `dafny verify dfyconfig.toml`
covers all of it; no module needs anything from outside this directory.

| file | models |
|---|---|
| `MessageFormatter.dfy` | the WhatsApp message parser of the dashboard, and the printer that is its inverse |
| `HookHandlers.dfy`, `HookIds.dfy`, `HookManager.dfy` | the hook bus: cascades of events, ids, and the priority-ordered registry |
| `StorageKeyCodec.dfy`, `StoragePaths.dfy`, `PluginStorage.dfy` | the per-plugin key-value store on a directory of files, with every state a write passes through |
| `PluginLifecycle.dfy` | enabling and disabling a sandboxed plugin, cut at the awaits |
| `DeliveryStatus.dfy`, `ChatThread.dfy`, `ChatCache.dfy` | the chat page's cached threads: optimistic send, response, failure, echoes and acks in any order |
| `Ipv4.dfy`, `Ipv6.dfy`, `AddressGuard.dfy`, `AddressVerdict.dfy`, `ClientIp.dfy` | address text, CIDR masks on 32-bit operators, the verdict on an address literal and where its spelling matters, the client behind proxies |
| `ConfigMerge.dfy`, `SessionOverride.dfy` | per-session plugin configuration: the merge, and the sparse override as its partial inverse |
| `Throttle.dfy`, `Sharing.dfy`, `WebVersion.dfy`, `S3Probe.dfy` | shared fetches and probes with their rate bounds |
| `PluginFetch.dfy`, `ArchiveImport.dfy` | bounded buffering: the plugin fetch counter and body loop, the archive import's event machine |
| `Sequences.dfy`, `StableSort.dfy`, `Arithmetic.dfy`, `Characters.dfy`, `Wrappers.dfy` | splitting and joining, stable sorting and filtering, division, the class `\s`, the option type |

Code that computes is modelled as functions. Code that changes things step by step is modelled as methods with the
source's loops and branches, proved equal to a function whose properties the lemmas state. Asynchronous code is cut
at its awaits: each piece is one step on the shared state, and the theorems quantify over every sequence of steps.

What the main results say:

* Parsing a message and printing the result gives the message back, for every string; the parse is in normal form, no
  code segment or style is missed, and markers that cannot open or cannot close stay text.
* A hook cascade ends whatever its handlers do, never nests an event inside itself, and is at most 18 events deep. A
  handler that fails has no effect on the chain, one that continues hands its data on. Every event list is the stable
  sort of the live registrations, lowest priority number first.
* The plugin store answers like a map over every run of its four operations, with the value last written; a crash at
  any file-system step of `set` leaves the old or the new map, and over whole runs with such crashes no acknowledged
  change is lost. A half-done `delete` shows the old or the new map if and only if there is no second file behind the
  first with something else in it.
* Over every interleaving of enables, non-overlapping disables, worker messages and exits, a plugin that is down owns
  nothing, and no worker is lost. A plugin is enabled exactly by a start-up whose three steps resolve in order; one that
  rejects ends in error. From every such state an action opens the way to a loss if and only if it starts a
  disable inside another.
* However response, echoes and acks interleave, one row remains per message and no placeholder after the response.
  Ticks alone depend on the order, because an ack that comes before the row exists is lost; when two interleavings
  show the same ticks is stated as an equivalence.
* CIDR masks mean division; IPv6 expansion inverts every legal rendering. The verdict on every legal IPv6 text is given:
  every text of a local address is blocked, every text of a 6to4, NAT64, IPv4-compatible or IPv4-translatable address
  gets the verdict on the IPv4 address it embeds. It is false of the code that the verdict follows from the address
  alone; the exact condition is proved. The all-zero address is blocked only as `::`, a mapped address is classified
  only in text that starts with `::ffff:` (`0::ffff:7f00:1` is not blocked), and `fc::1` is blocked although it is not
  local. The first two concern the exported function: its callers pass host names of parsed URLs and resolved
  addresses, and in the spelling that RFC 5952 recommends only the third remains.
* The configuration merge is characterised at every path, and so are the triples on which it is associative. The sparse
  override, resolved, gives an edited value back if and only if the value survives four checks a caller can make.
* At most one fetch or probe is under way, starts are spaced, no caller is lost, and a cached result is final.
* The calls in flight stay within 16 and the bytes they buffer within 16 x 10 MiB, in every run. That the counter is
  the number of calls in flight is false of the code: a call whose options are `null` raises it and throws before the
  block that lowers it. The counter is exact if and only if no such call was accepted, and after sixteen every call is
  refused.
* An import settles once, exactly when its stream ends or breaks a limit, and starts no write afterwards. An archive
  within the limits is imported whole.

Where code and documentation disagree the code is followed: the comment on `setPluginSessionConfig`
(src/core/plugins/plugin-loader.service.ts:551-556) calls the override shallow-merged, while `deepMerge` merges at every
depth.

## Model

| member | source | states |
|---|---|---|
| MessageFormatter.RoundTrip | dashboard/src/utils/messageFormatter.ts:37-168 | printing the parse of any string gives exactly that string |
| MessageFormatter.ParseIsNormal | dashboard/src/utils/messageFormatter.ts:37-168 | in every parse, at every depth, text leaves are non-empty and irreducible, no two siblings are adjacent text, and code values stop at their nearest closing marker |
| MessageFormatter.ParseMessageBody | dashboard/src/utils/messageFormatter.ts:37-99 | the code-peeling loop ends with exactly the parse the two theorems above speak about |
| MessageFormatter.FlushText | dashboard/src/utils/messageFormatter.ts:44-49 | appends the formatted text between the cursor and the given end, and nothing if there is none |
| MessageFormatter.FindCode | dashboard/src/utils/messageFormatter.ts:52-91 | the nearer of the next block and the next inline code, or nothing when its closer is missing |
| MessageFormatter.NextSegmentIsEarliest | dashboard/src/utils/messageFormatter.ts:52-70 | no backtick in front of the chosen code segment could have opened one: it is the tail of a triple that began before the cursor |
| MessageFormatter.NoSegmentIff | dashboard/src/utils/messageFormatter.ts:52-91 | no code is found if and only if nothing at or behind the cursor can open any, or what opens nearest is never closed, stated on characters |
| MessageFormatter.SegmentAt | dashboard/src/utils/messageFormatter.ts:52-95 | a nearest opener with a nearest closer, both stated on characters, is the next segment, a block behind three backticks and inline code behind one |
| MessageFormatter.ParseStep | dashboard/src/utils/messageFormatter.ts:51-96 | from every cursor the parse is the formatted text up to the nearest opener, its code, and the parse behind the nearest closer |
| MessageFormatter.InlineCodeIsFound | dashboard/src/utils/messageFormatter.ts:86-96 | for all texts without backticks, one put between two backticks is inline code and the text on both sides is formatted |
| MessageFormatter.CodeBlockIsFound | dashboard/src/utils/messageFormatter.ts:72-84 | the same with three backticks and a block |
| MessageFormatter.UnclosedCodeIsText | dashboard/src/utils/messageFormatter.ts:86-91 | a backtick that nothing closes is text, with everything behind it |
| MessageFormatter.FindSingleBacktick | dashboard/src/utils/messageFormatter.ts:105-123 | the scan loop finds the first backtick that it may not skip |
| MessageFormatter.SingleBacktickSkipsTriples | dashboard/src/utils/messageFormatter.ts:105-123 | the backtick found neither starts nor is the middle of a triple, and every backtick passed over belongs to a triple |
| MessageFormatter.ParseFormatting | dashboard/src/utils/messageFormatter.ts:129-168 | the nested scan splits at the leftmost opener that has a valid closer and at the nearest such closer, and recurses |
| MessageFormatter.FirstPairExists | dashboard/src/utils/messageFormatter.ts:132-165 | whenever some opener has some closer there is a leftmost opener with a nearest closer |
| MessageFormatter.IrreducibleIffNoPair | dashboard/src/utils/messageFormatter.ts:132-167 | a text parses to a single leaf if and only if no opener in it has a valid closer |
| MessageFormatter.BeforeFirstPair | dashboard/src/utils/messageFormatter.ts:155-159 | the text in front of the first pair is itself irreducible |
| MessageFormatter.PrintFormatted | dashboard/src/utils/messageFormatter.ts:129-168 | printing the formatted parse of a code-free text gives the text |
| MessageFormatter.FormattedIsNormal | dashboard/src/utils/messageFormatter.ts:129-168 | the formatted parse is in normal form and holds only text and styled nodes |
| MessageFormatter.EmptyStyleIff | dashboard/src/utils/messageFormatter.ts:146-162 | a styled node is empty if and only if its markers touch |
| MessageFormatter.EmptyStyleOccurs | dashboard/src/utils/messageFormatter.ts:146-162 | it happens: `**` parses to an empty bold node |
| MessageFormatter.StyleIsFound | dashboard/src/utils/messageFormatter.ts:16-20 | `*` is bold, `_` italic and `~` struck through: between boundary characters, around any text without that marker and without spaces at its ends, whose parse is nested in it |
| MessageFormatter.StyledTextIsFound | dashboard/src/utils/messageFormatter.ts:129-168 | for each of the three markers: the marker, plain text and the marker again parse to one node of that style |
| MessageFormatter.PlainTextIsText | dashboard/src/utils/messageFormatter.ts:167 | text without markers and backticks parses to itself |
| MessageFormatter.InertMarkersAreText | dashboard/src/utils/messageFormatter.ts:132-167 | markers that all follow a letter or digit, precede a space or end the text are text, and so are those that all precede a letter or digit, follow a space or start it |
| MessageFormatter.BlockIsNormal | dashboard/src/utils/messageFormatter.ts:72-84 | no triple backtick starts inside a block's value |
| MessageFormatter.InlineIsNormal | dashboard/src/utils/messageFormatter.ts:86-95 | an inline code value holds no backtick |
| HookHandlers.CascadeDepth | src/core/hooks/hook-manager.service.ts:90-120 | for every registry of finite handler programs, a fired event nests at most as many events as are known and not yet in flight, so at most 18 |
| HookHandlers.NoReentry | src/core/hooks/hook-manager.service.ts:95-105 | no event runs inside a run of itself, at any depth |
| HookHandlers.ExecuteIsGuarded | src/core/hooks/hook-manager.service.ts:95-120 | at every point of the cascade an event is blocked if and only if it is in flight there, including parts run with more events marked |
| HookHandlers.GuardedNesting | src/core/hooks/hook-manager.service.ts:103-119 | a guarded cascade is no deeper than the number of events left |
| HookHandlers.ChainConcat | src/core/hooks/hook-manager.service.ts:149-174 | a chain is a fold: its second part runs on what the first part left, unless the first part stopped it |
| HookHandlers.ContinuingHandlerPassesOn | src/core/hooks/hook-manager.service.ts:150-160 | a handler that continues with new data hands exactly these to what stands behind it |
| HookHandlers.FinishedHandlerPassesOn | src/core/hooks/hook-manager.service.ts:156-158 | for a handler that only computes, at the head of a chain: the rest runs on what it returned |
| HookHandlers.HandlersCompose | src/core/hooks/hook-manager.service.ts:149-174 | a chain of handlers that continue with changed data replies with their composition, in order |
| HookHandlers.FailingHandlerIsAbsent | src/core/hooks/hook-manager.service.ts:150-171 | a handler that throws, or reports an error while continuing, is observationally the same as its absence |
| HookHandlers.StoppingHandlerDecides | src/core/hooks/hook-manager.service.ts:154-163 | a handler that does not continue fixes the reply: its data unless an error field comes with it, else the data it was given; nothing behind it matters |
| HookHandlers.ExecuteRuns | src/core/hooks/hook-manager.service.ts:95-106 | an event that is not in flight gets the reply of the chain of its registered handlers; one that is, or has none, leaves the data as it is and continues |
| HookHandlers.OneHandlerReply | src/core/hooks/hook-manager.service.ts:129-174 | with one handler registered, what it returns is the reply |
| HookHandlers.FiredReplyReachesHandler | src/core/hooks/hook-manager.service.ts:95-105 | a handler that fires an event goes on with the reply of its chain, and with its own data if the event is in flight |
| HookHandlers.SeededPartPassesOn | src/core/hooks/hook-manager.service.ts:117-121 | what a part run with more events marked returns, or throws, is what the rest of the handler gets |
| HookIds.IdsCollideIff | src/core/hooks/hook-manager.service.ts:20 | two hook ids are equal if and only if plugin, event and time stamp are |
| HookManager.ChainIsOrdered | src/core/hooks/hook-manager.service.ts:29-36 | in each event's chain an earlier entry has no greater priority number than a later one; it holds exactly the live registrations of the event and keeps ties in registration order |
| HookManager.ChainMember | src/core/hooks/hook-manager.service.ts:29-33 | a registration is in an event's chain if and only if it is live and made for that event |
| HookManager.OthersStay | src/core/hooks/hook-manager.service.ts:77-80 | filtering a plugin out keeps exactly the registrations of the other plugins |
| HookManager.ChainAfterRegister | src/core/hooks/hook-manager.service.ts:30-36 | pushing and sorting again is inserting into the stable sort; other events are untouched |
| HookManager.ChainAfterSplice | src/core/hooks/hook-manager.service.ts:53-56 | splicing one entry removes exactly that live registration and touches no other list |
| HookManager.ChainAfterUnregisterPlugin | src/core/hooks/hook-manager.service.ts:77-80 | filtering every list leaves exactly the chains of the other plugins' registrations |
| HookManager.HookManager.Register | src/core/hooks/hook-manager.service.ts:19-46 | keeps the registry invariant, adds exactly one live registration, and records when a plugin is handed an id twice |
| HookManager.HookManager.AddHook | src/core/hooks/hook-manager.service.ts:29-36 | every event list stays the stable sort of the live registrations |
| HookManager.HookManager.TrackHook | src/core/hooks/hook-manager.service.ts:38-42 | each tracked plugin that never repeated an id has exactly the ids of its live registrations |
| HookManager.HookManager.Unregister | src/core/hooks/hook-manager.service.ts:51-68 | removes the first registration with the id from one chain, or changes nothing when there is none |
| HookManager.HookManager.FindHook | src/core/hooks/hook-manager.service.ts:52-54 | finds where an event list first holds the id, and finds nothing only if no live registration has it |
| HookManager.HookManager.RemoveHook | src/core/hooks/hook-manager.service.ts:55-56 | removes the registration from its list and from the live ones, keeping the lists sorted |
| HookManager.HookManager.UntrackHook | src/core/hooks/hook-manager.service.ts:58-62 | the tracked ids stay those of the live registrations |
| HookManager.HookManager.UnregisterPlugin | src/core/hooks/hook-manager.service.ts:73-84 | the live registrations are those of the other plugins, in order; the plugin is no longer tracked |
| HookManager.HookManager.FilterLists | src/core/hooks/hook-manager.service.ts:77-80 | every list loses the plugin's entries and keeps the others in order |
| HookManager.HookManager.Execute | src/core/hooks/hook-manager.service.ts:90-106 | terminates, and replies as the guarded cascade does |
| HookManager.HookManager.RunHandlers | src/core/hooks/hook-manager.service.ts:129-175 | the loop over the registrations replies as the fold does |
| StableSort.SortIsStable | src/core/hooks/hook-manager.service.ts:36 | sorting keeps the order of entries that tie |
| StableSort.SortContents | src/core/hooks/hook-manager.service.ts:36 | sorting neither loses nor invents entries |
| StableSort.FilterSort | src/core/hooks/hook-manager.service.ts:77-80 | filtering and sorting commute |
| StorageKeyCodec.Base64RoundTrip | src/core/plugins/plugin-storage.service.ts:34-46 | decoding base64 text gives back every byte string |
| StorageKeyCodec.EncodedKeyShape | src/core/plugins/plugin-storage.service.ts:34-39 | an encoded key is the prefix and unpadded base64url digits, without a slash, and longer than the key |
| StorageKeyCodec.EncodedKeyBits | src/core/plugins/plugin-storage.service.ts:34-39 | the name is `key-` and one character of the URL alphabet for every six bits begun, each the character of those bits of the key |
| StorageKeyCodec.DecodeIsExactInverse | src/core/plugins/plugin-storage.service.ts:34-53 | for any base64 decoder that is right on canonical text: a stem decodes to a key if and only if it is the key's encoding |
| StorageKeyCodec.DecodeIffEncoded | src/core/plugins/plugin-storage.service.ts:41-53 | the same for the lenient decoder |
| StorageKeyCodec.EncodeIsInjective | src/core/plugins/plugin-storage.service.ts:34-39 | different keys have different encoded names |
| StoragePaths.ResolversAcceptSafeKeys | src/core/plugins/plugin-storage.service.ts:213-225 | both path resolvers accept exactly the safe keys |
| StoragePaths.SafeIff | src/common/utils/path-safety.ts:26-33 | a key is safe if and only if it is not empty, does not start with a slash, has no control character, and nowhere has two dots between slashes, backslashes or its ends |
| StoragePaths.EncodedFileIsFlat | src/core/plugins/plugin-storage.service.ts:215-216 | an encoded file lies directly in the plugin directory |
| StoragePaths.FilesOfFlatKey | src/core/plugins/plugin-storage.service.ts:213-225 | a key without slashes has two files, its encoded name and the key itself, each with `.json` behind |
| StoragePaths.NormalIff | src/core/plugins/plugin-storage.service.ts:223-224 | joining a legacy name to the directory changes it unless it has neither empty nor dot segments |
| PluginStorage.StoreRefinesMap | src/core/plugins/plugin-storage.service.ts:227-313 | from every well-formed directory, every sequence of get, set, delete and list answers and evolves as on a plain map; a listing has each key of the domain once |
| PluginStorage.LastWriteIsRead | src/core/plugins/plugin-storage.service.ts:228-290 | in every run over plain keys a read answers with the value last written to its key, whatever has happened to other keys since |
| PluginStorage.ReadsBack | src/core/plugins/plugin-storage.service.ts:228-290 | in every directory and for every safe key: what has just been written is read back, and what has just been deleted is absent |
| PluginStorage.InterruptedRunsRefineMap | src/core/plugins/plugin-storage.service.ts:17-30 | over every run in which any change may stop at any file-system step (a delete not between its unlinks where that uncovers an older value), the store is the map to which every acknowledged change, and some of the interrupted ones, have been applied whole and in order |
| PluginStorage.StoredIffKey | src/core/plugins/plugin-storage.service.ts:228-247 | a plain key is listed exactly when a read finds a file for it |
| PluginStorage.SetRefinesUpdate | src/core/plugins/plugin-storage.service.ts:249-263 | writing updates the map at the key and migrates the legacy file |
| PluginStorage.EncodedShadowsLegacy | src/core/plugins/plugin-storage.service.ts:236-242 | with both files present the encoded one decides |
| PluginStorage.DeleteRefinesRemoval | src/core/plugins/plugin-storage.service.ts:272-284 | deleting removes the key from the map whichever files held it |
| PluginStorage.ListIsDomain | src/core/plugins/plugin-storage.service.ts:292-308 | listing returns exactly the keys of the map with the prefix, each once, in whatever order files come |
| PluginStorage.TemporaryIsInvisible | src/core/plugins/plugin-storage.service.ts:17-21 | a temporary file, torn or complete, changes neither reads nor lists |
| PluginStorage.SetIsCrashAtomic | src/core/plugins/plugin-storage.service.ts:17-30 | stopping at any state a write passes through leaves the complete old or the complete new map |
| PluginStorage.DeleteIsCrashAtomicIff | src/core/plugins/plugin-storage.service.ts:278-283 | stopping between the two unlinks shows the old or the new map if and only if no legacy file with other contents stands behind the encoded one |
| PluginStorage.HalfDeletedUncovers | src/core/plugins/plugin-storage.service.ts:278-283 | it happens for the key `a`: with two different files, a half-done delete shows the older value |
| PluginStorage.PlainKeysAreApart | src/core/plugins/plugin-storage.service.ts:213-225 | two plain keys never share a file |
| PluginStorage.SetIsolationIff | src/core/plugins/plugin-storage.service.ts:249-263 | writing one key leaves another alone in every directory if and only if they share no file name |
| PluginStorage.EncodedLookingKeyAliases | src/core/plugins/plugin-storage.service.ts:34-39 | a key that reads like an encoded name shares a file with the key it encodes |
| PluginStorage.EncodedNameIsSafe | src/common/utils/path-safety.ts:26-33 | every encoded name is itself accepted as a key |
| PluginStorage.EncodedLookingKeyDeletes | src/core/plugins/plugin-storage.service.ts:260-264 | for every key: writing the safe key that reads like its encoded name deletes its value |
| PluginStorage.DotSegmentAliases | src/core/plugins/plugin-storage.service.ts:221-225 | the safe keys `a` and `./a` share a legacy file: writing the second deletes the first's value |
| PluginStorage.PluginStorage.AtomicWriteFile | src/core/plugins/plugin-storage.service.ts:17-30 | success, exactly if no file-system call fails, replaces the file; no temporary is left unless its removal fails too; every state passed through is one of the five listed |
| PluginStorage.PluginStorage.Get | src/core/plugins/plugin-storage.service.ts:228-247 | the value in the encoded file if there is one, else in the legacy file; unsafe keys, missing files and text that does not parse read as absent |
| PluginStorage.PluginStorage.ReadFirst | src/core/plugins/plugin-storage.service.ts:237-242 | the value in the first candidate that exists, or nothing if it does not parse or none exists |
| PluginStorage.PluginStorage.Set | src/core/plugins/plugin-storage.service.ts:249-270 | succeeds exactly if the key is safe and no file-system call fails, and then updates the map; failure and every state on the way leave the old or the new map; unsafe keys touch nothing |
| PluginStorage.PluginStorage.SetSteps | src/core/plugins/plugin-storage.service.ts:254-265 | the order of write, rename, mode change and unlink, any of which may fail |
| PluginStorage.PluginStorage.Delete | src/core/plugins/plugin-storage.service.ts:272-290 | succeeds exactly if the key is safe and no file-system call fails, and then removes the key; failure leaves everything, or all but the encoded file; every state on the way is the old one, the one between the unlinks, or the new one |
| PluginStorage.PluginStorage.DeleteSteps | src/core/plugins/plugin-storage.service.ts:277-284 | the order of the two unlinks, each only where the file exists, either of which may fail |
| PluginLifecycle.EveryRunIsSafe | src/core/plugins/plugin-loader.service.ts:316-434 | in every run without overlapping disables: at most one enable in flight, a plugin neither enabled nor being enabled owns no host, worker or registration, one registration per event at most, the status in the plugin registry is the live one, and no worker is lost |
| PluginLifecycle.EnablingSucceeds | src/core/plugins/plugin-loader.service.ts:345-359 | from every settled state that is not enabled: an enable whose load, onLoad and onEnable resolve ends enabled, in the plugin registry too, with the new worker as host and nothing suspended |
| PluginLifecycle.EnabledAfterAllSteps | src/core/plugins/plugin-loader.service.ts:930-934 | in every run a plugin becomes enabled only by a call whose load, onLoad and onEnable have resolved since it was made, in this order |
| PluginLifecycle.FailedEndsInError | src/core/plugins/plugin-loader.service.ts:365-381 | once a start-up has failed nothing makes it succeed: when its call returns, whatever has happened since, both statuses are error and no registration is left |
| PluginLifecycle.RejectionEndsInError | src/core/plugins/plugin-loader.service.ts:935-939 | whichever step rejects, the worker is taken down and the plugin ends in error with nothing left |
| PluginLifecycle.EscapeEndsInError | src/core/plugins/plugin-loader.service.ts:347-381 | a plugin that the containment guard refuses ends in error without a worker ever |
| PluginLifecycle.DisablingSucceeds | src/core/plugins/plugin-loader.service.ts:394-423 | from every settled enabled state: a disable whose onDisable has settled and whose worker is gone ends disabled with nothing left |
| PluginLifecycle.IdleCalls | src/core/plugins/plugin-loader.service.ts:322-345 | enabling what is enabled or being enabled, and disabling what is not enabled, change nothing; without a host a disable is done at once |
| PluginLifecycle.SubscriptionRegisters | src/core/plugins/plugin-loader.service.ts:835-840 | a known event that the worker has not subscribed to is registered, so the cap never refuses one; an unknown name changes nothing |
| PluginLifecycle.StepKeepsInv | src/core/plugins/plugin-loader.service.ts:316-434 | each piece of code between two awaits keeps the lifecycle invariant unless it starts a disable inside another |
| PluginLifecycle.InvIsSafe | src/core/plugins/plugin-loader.service.ts:338-381 | the invariant implies each of the safety claims |
| PluginLifecycle.SettledStates | src/core/plugins/plugin-loader.service.ts:354-359 | with nothing suspended a plugin has a host if and only if it is enabled, else nothing at all, and at most 18 registrations |
| PluginLifecycle.LeakIffOverlap | src/core/plugins/plugin-loader.service.ts:384-434 | from every state of the invariant, an action can be followed by an unsafe state without further overlaps if and only if it starts a disable inside another |
| PluginLifecycle.OverlapLeaks | src/core/plugins/plugin-loader.service.ts:384-423 | the run that loses a worker: both disables wait, the worker exits, and an enable comes between the two returns |
| PluginLifecycle.InitialIsInv | src/core/plugins/plugin-loader.service.ts:316-345 | a plugin as the loader starts with it satisfies the invariant |
| PluginLifecycle.SandboxedPlugin.EnablePlugin | src/core/plugins/plugin-loader.service.ts:316-351 | the early return, the claim before any await, the containment guard and the start of the worker |
| PluginLifecycle.SandboxedPlugin.ResumeStart | src/core/plugins/plugin-loader.service.ts:930-939 | load, onLoad and onEnable in order; a failure drops the host before the worker is torn down |
| PluginLifecycle.SandboxedPlugin.FinishEnable | src/core/plugins/plugin-loader.service.ts:354-381 | success and failure set the live status and the one in the registry alike; failure drops every registration; the claim is released |
| PluginLifecycle.SandboxedPlugin.DisablePlugin | src/core/plugins/plugin-loader.service.ts:384-396 | returns at once unless enabled, else waits for the worker |
| PluginLifecycle.SandboxedPlugin.FinishDisable | src/core/plugins/plugin-loader.service.ts:409-423 | once the worker is gone drops host and registrations and sets both statuses |
| PluginLifecycle.SandboxedPlugin.OnHookSubscribe | src/core/plugins/plugin-loader.service.ts:814-839 | unknown, repeated and excess subscriptions change nothing; any other adds one registration |
| DeliveryStatus.FoldMeaning | dashboard/src/utils/chatMessages.ts:65-77 | folding any event list from pending gives failed exactly when a failure precedes every delivery and reading, else the highest rank seen |
| DeliveryStatus.FoldMeaningFrom | dashboard/src/utils/chatMessages.ts:65-77 | the same from pending or sent, the start counting among the ranks seen |
| DeliveryStatus.SameTicksIff | dashboard/src/utils/chatMessages.ts:65-77 | two event lists lead from sent to the same status if and only if a failure comes in time in both, or in neither and the highest rank is the same |
| DeliveryStatus.AdvanceMovesUp | dashboard/src/utils/chatMessages.ts:65-77 | each step stays or moves up, and repeating it changes nothing |
| DeliveryStatus.TransitionTable | dashboard/src/utils/chatMessages.ts:61-77 | the transition and the order between each two known statuses, name by name |
| DeliveryStatus.UnknownAndMissing | dashboard/src/utils/chatMessages.ts:70-77 | an unknown status is ignored or gives way to a ranked one; a missing side leaves the other |
| DeliveryStatus.BelowIsPartialOrder | dashboard/src/utils/chatMessages.ts:61-65 | pending, sent, delivered, read ascend, failed is above sent and terminal: a partial order |
| DeliveryStatus.ReplayChangesNothing | dashboard/src/utils/chatMessages.ts:65-77 | replaying the last event of any list changes nothing |
| ChatThread.SendSettles | dashboard/src/pages/Chats.tsx:205-299 | after the response and an echo, in any legal interleaving: unique keys, no placeholder, exactly one row for the message, with the last echo's contents and the acks folded |
| ChatThread.SendIsConfluent | dashboard/src/pages/Chats.tsx:499-585 | two interleavings that end with the same echo show the same row up to its ticks, and the same ticks if and only if, behind the response or the first echo, a failure came in time in both, or in neither and the highest ack is the same |
| ChatThread.RunTracks | dashboard/src/pages/Chats.tsx:499-585 | at every point of every run keys are unique, the placeholder is there exactly until the response, and the message's row is what the events alone determine |
| ChatThread.SendLeavesOthersAlone | dashboard/src/pages/Chats.tsx:572-585 | a send drops, duplicates, changes and reorders no other row |
| ChatThread.StatusIsFold | dashboard/src/pages/Chats.tsx:274-299 | the row's status is the fold of the acks behind the response or the first echo |
| ChatThread.EchoDecidesRow | dashboard/src/pages/Chats.tsx:205-232 | once echoed, the row is the last echo in all but its ticks |
| ChatThread.ResponseKeepsPlaceholder | dashboard/src/pages/Chats.tsx:580-584 | without an echo the row is the placeholder with its time, content and metadata, under the id the server gave it |
| ChatThread.RowExistsIff | dashboard/src/pages/Chats.tsx:572-585 | the message has its row if and only if the response or an echo has come |
| ChatThread.TicksMayDiffer | dashboard/src/pages/Chats.tsx:285-288 | the same four events with one read ack in front of or behind the response end in sent or in read |
| ChatThread.FailedSend | dashboard/src/pages/Chats.tsx:601-604 | after a failure the placeholder stays as one failed row; a second row stands beside it exactly when an echo arrives |
| ChatThread.MergeKeepsUnique | dashboard/src/utils/chatMessages.ts:87-101 | appending or replacing keeps keys unique whatever comes in |
| ChatCache.MergedThread | dashboard/src/utils/chatMessages.ts:38-46 | the merged thread has one row per key, and the database row wins, the last one of each side |
| ChatCache.ThreadAscends | dashboard/src/utils/chatMessages.ts:45 | of two rows of the merged thread the earlier has the smaller time, or the same time and no later creation |
| ChatCache.OneRowPerMessage | dashboard/src/utils/chatMessages.ts:34 | with unique keys no WhatsApp id stands twice, and among rows without one no id |
| ChatCache.MergeChatMessages | dashboard/src/utils/chatMessages.ts:41-46 | the two loops and the sort compute that thread |
| ChatCache.MergeOrAppendInCopy | dashboard/src/utils/chatMessages.ts:87-101 | puts the incoming row, with the merged status and with the old metadata where it has none, in the place of the first row with its key, or appends it |
| ChatCache.SameMessageIsReplaced | dashboard/src/utils/chatMessages.ts:34 | a row with the same WhatsApp id is replaced in place, whatever the two rows' own ids are |
| ChatCache.AckInCopy | dashboard/src/pages/Chats.tsx:285-294 | advances the first row the ack names, or changes nothing |
| ChatCache.AckedByEitherId | dashboard/src/pages/Chats.tsx:285-294 | the first row that the ack names by its id or by its WhatsApp id takes the merged status, and nothing else changes |
| ChatCache.UpdateStatusInCopy | dashboard/src/utils/chatMessages.ts:121-131 | patches the first row with the id, or changes nothing |
| ChatCache.MessageCache.AppendMessage | dashboard/src/hooks/useChatMessages.ts:54-62 | rewrites the chat's slice, and seeds none for a chat that was never opened |
| ChatCache.MessageCache.HandleResponse | dashboard/src/pages/Chats.tsx:572-585 | rewrites only the chat's slice; a missing one comes back empty |
| ChatCache.RenamedInPlace | dashboard/src/pages/Chats.tsx:580-584 | without an echo the placeholder takes its identity where it stands and nothing else changes |
| ChatCache.PlaceholderGoes | dashboard/src/pages/Chats.tsx:574-579 | with an echo there the placeholder is filtered out and nothing else changes |
| ChatCache.MessageCache.HandleFailure | dashboard/src/pages/Chats.tsx:601-604 | marks the placeholder failed in the chat's slice only |
| ChatCache.MessageCache.HandleAck | dashboard/src/pages/Chats.tsx:280-296 | applies the ack to every slice and to nothing else |
| Ipv4.MaskMeansDivision | src/common/security/ssrf-guard.ts:57-61 | for all 32-bit addresses and prefix lengths 0 to 32 the masked comparison on signed 32-bit operators holds if and only if both lie in the same block of 2^(32-bits) |
| Ipv4.MatchesBlock | src/common/utils/ip.ts:78-97 | `ipMatches` on dotted text and a CIDR block holds if and only if address and base share the block |
| Ipv4.MatchesAddress | src/common/utils/ip.ts:82-84 | without a slash `ipMatches` on dotted text holds if and only if the addresses are the same |
| Ipv4.MatchesNothing | src/common/utils/ip.ts:86-92 | a prefix length beyond 32 matches nothing, and text that is no address is in no block |
| Ipv4.MappedSpellingReads | src/common/utils/ip.ts:6-10 | the mapped spelling of an address, in either case, reads as the address |
| Ipv4.TrimStrips | src/common/utils/ip.ts:79-80 | trimming takes off the spaces at both ends and nothing else |
| Ipv4.Loopback | src/common/utils/ip.ts:60-71 | `127.0.0.1` is the text of 0x7f000001 |
| Ipv4.ParseIPv4 | src/common/utils/ip.ts:60-71 | the loop gives the address of a dotted text, or nothing when it is malformed |
| Ipv4.ParseQuad | src/common/utils/ip.ts:60-71 | parsing four printed octets gives their value |
| Ipv4.ParseDotted | src/common/utils/ip.ts:60-71 | parsing the printed form of any 32-bit address gives the address |
| Ipv6.ExpandInvertsRender | src/common/security/ssrf-guard.ts:94-114 | for every legal text form of RFC 4291, section 2.2 (any `::`, leading zeros, dotted tail) expansion gives exactly the hextets it denotes |
| Ipv6.ExpandIPv6 | src/common/security/ssrf-guard.ts:94-114 | any result at all is eight values below 65536 |
| Ipv6.EveryAddressHasText | src/common/security/ssrf-guard.ts:94-114 | every eight hextets are denoted by some legal text |
| Ipv6.TextDeterminesValue | src/common/security/ssrf-guard.ts:94-114 | a text read as two legal forms denotes one address |
| Ipv6.ExpandDotted | src/common/security/ssrf-guard.ts:97-103 | a dotted tail behind a colon is found where it begins and folded into two groups |
| AddressVerdict.EmbeddedVerdict | src/common/security/ssrf-guard.ts:122-176 | for every legal text of a 6to4, NAT64, IPv4-compatible or IPv4-translatable address the verdict is the one on the embedded 32 bits, stated as reserved intervals |
| AddressVerdict.SixToFourVerdict | src/common/security/ssrf-guard.ts:153-155 | every legal text in 2002::/16 gets the verdict on the address in its second and third group |
| AddressVerdict.LastGroupsVerdict | src/common/security/ssrf-guard.ts:156-174 | every legal text in 64:ff9b::/32, ::ffff:0:0:0/96, or ::/96 other than the all-zero address gets the verdict on the address in its last two groups |
| AddressVerdict.VerdictIff | src/common/security/ssrf-guard.ts:122-176 | the verdict on every legal text: all zeros, only as `::`; mapped, only behind a literal `::ffff:` and by the address behind it; any other by its local prefix or the address it embeds |
| AddressVerdict.SpellingMattersIff | src/common/security/ssrf-guard.ts:122-176 | the verdict on a text is the one on its address if and only if the text is not an all-zero one other than `::`, a reserved mapped one without the literal prefix, or one that starts with the digits of a local prefix cut short |
| AddressVerdict.NormalVerdictIff | src/common/security/ssrf-guard.ts:122-176 | in the spelling of section 4 of RFC 5952 the verdict follows from the address: the one above, and blocked where the first group is a local prefix cut short |
| AddressVerdict.MappedVerdictIff | src/common/security/ssrf-guard.ts:126-139 | for every legal text of a mapped address: blocked if and only if the text starts with `::ffff:` and the embedded address is reserved |
| AddressVerdict.UnspecifiedVerdictIff | src/common/security/ssrf-guard.ts:124 | for every legal text of the all-zero address: blocked if and only if the text is `::` |
| AddressVerdict.OtherVerdictIff | src/common/security/ssrf-guard.ts:141-176 | for every other legal text: blocked if and only if the address is local, or the first group shows the digits of a local prefix cut short and no leading zero, or the embedded address is reserved |
| AddressVerdict.LocalPrefixIff | src/common/security/ssrf-guard.ts:142-144 | the three textual tests hold for exactly the local groups and for the two- and three-digit groups with their digits |
| AddressVerdict.LocalVerdict | src/common/security/ssrf-guard.ts:141-144 | every legal text of a unique-local, link-local or site-local address is blocked |
| AddressVerdict.UnspecifiedSpellings | src/common/security/ssrf-guard.ts:124 | `0::` and `::` denote the same address; the first is not blocked and the second is |
| AddressVerdict.MappedSpelling | src/common/security/ssrf-guard.ts:128-139 | `0::ffff:7f00:1` denotes the mapped 127.0.0.1, which is reserved, and is not blocked |
| AddressVerdict.ShortLocalSpellings | src/common/security/ssrf-guard.ts:141-144 | `fc::1` and `00fc::1` denote the same address, which is not local; the first is blocked and the second is not |
| AddressGuard.DottedVerdict | src/common/security/ssrf-guard.ts:116-120 | dotted text gets the verdict on the address it denotes |
| AddressGuard.BlockedIsReserved | src/common/security/ssrf-guard.ts:63-76 | the masked table is exactly the union of the reserved intervals of addresses |
| AddressGuard.HextetBytes | src/common/security/ssrf-guard.ts:85-87 | shifting and masking two hextets gives their four bytes |
| AddressGuard.DottedIsNotIPv6 | src/common/security/ssrf-guard.ts:130-138 | dotted text is never an IPv6 literal, so the recursive calls end at once |
| ClientIp.ResolveClientIp | src/common/utils/ip.ts:25-58 | the loop returns the last hop that is not a trusted proxy, or the peer |
| ClientIp.ClientCannotInfluence | src/common/utils/ip.ts:39-57 | behind a trusted peer, whatever stands in front of the part that holds an untrusted hop has no influence; behind any other peer the header has none |
| ClientIp.ClientIsPeerOrUntrustedHop | src/common/utils/ip.ts:34-57 | the result is the peer, or a hop that is no trusted proxy; a trusted result means every hop was trusted |
| ClientIp.HeaderHolds | src/common/utils/ip.ts:44-47 | the hops of a header are what stands between its commas without the spaces around it, whether it was sent once or several times |
| ClientIp.PeerAddress | src/common/utils/ip.ts:26 | the peer is the remote address if there is one, else the framework's, with a mapped one read as IPv4 |
| ClientIp.TrustedIff | src/common/utils/ip.ts:32 | with blocks as trusted proxies an address is trusted if and only if it lies in one of them |
| ClientIp.ClientIsLastOutside | src/common/utils/ip.ts:34-57 | behind a peer in a trusted block the client is the last address of the header outside every trusted block; behind any other it is the peer |
| ConfigMerge.DeepMerge | src/core/plugins/plugin-activation.ts:28-35 | the recursive loop over the override's keys, in any order, computes the merge |
| ConfigMerge.MergeLaw | src/core/plugins/plugin-activation.ts:23-35 | at every path: the override's value where it sets one, nothing below a leaf of the override, the base's value elsewhere |
| ConfigMerge.OverrideStands | src/core/plugins/plugin-activation.ts:28-35 | at every path what the override sets stands, unless both hold objects there |
| ConfigMerge.ObjectsUnite | src/core/plugins/plugin-activation.ts:30-33 | where both hold objects the result has the keys of both |
| ConfigMerge.BaseShines | src/core/plugins/plugin-activation.ts:28-29 | what the override neither sets nor hides behind a leaf is the base's |
| ConfigMerge.MergeIsOverrideIff | src/core/plugins/plugin-activation.ts:28-35 | merging yields the override itself if and only if it keeps the base's keys in every nested object |
| ConfigMerge.SelfMerge | src/core/plugins/plugin-activation.ts:28-35 | merging a configuration over itself changes nothing |
| ConfigMerge.ReapplyingChangesNothing | src/core/plugins/plugin-activation.ts:28-35 | applying an override twice is applying it once |
| ConfigMerge.AssociatesIff | src/core/plugins/plugin-activation.ts:28-35 | merging three from the left and from the right agree if and only if no leaf in the middle, at any depth, stands between a base and an override that lacks a key of the base |
| ConfigMerge.MergeIsNotAssociative | src/core/plugins/plugin-activation.ts:28-35 | they differ for a leaf between two objects with different keys |
| ConfigMerge.ResolvePluginConfig | src/core/plugins/plugin-activation.ts:44-53 | the base unchanged for global plugins, events without a session and sessions without an override |
| SessionOverride.SparseSessionOverride | dashboard/src/pages/Plugins.tsx:61-79 | the loop carries secrets, changed values, and no untouched empty default; without a schema everything |
| SessionOverride.SecretIsKept | dashboard/src/pages/Plugins.tsx:68-71 | a secret in the form is stored whatever the base and the defaults are, and resolves to itself |
| SessionOverride.EmptyValues | dashboard/src/utils/pluginConfigForm.ts:4-25 | a default goes before a first option and that before the empty value of the kind, for each kind |
| SessionOverride.EmptyObject | dashboard/src/utils/pluginConfigForm.ts:14-18 | an object field shows each of its properties with its own empty value |
| SessionOverride.WireKeepsIff | dashboard/src/pages/Plugins.tsx:72-73 | a value written as JSON and read back is the same if and only if nothing in it is undefined, and what comes back has nothing undefined in it |
| SessionOverride.SparseThenResolveIff | dashboard/src/pages/Plugins.tsx:50-79 | after sending and resolving, a declared key that is not secret has the edited value if and only if that value is unchanged, or is present, not just the empty default of an unset field, and keeps the base's nested keys |
| SessionOverride.DroppedKeyComesBack | dashboard/src/pages/Plugins.tsx:72-77 | it fails for an edited object that drops a nested key: the key comes back from the base |
| SessionOverride.OtherKeysFollowBase | dashboard/src/pages/Plugins.tsx:50-60 | keys that are not declared or not edited keep the base's value |
| SessionOverride.UnchangedFollowsBase | dashboard/src/pages/Plugins.tsx:72 | an unchanged value follows every later change of the base |
| SessionOverride.ReopenIff | dashboard/src/pages/Plugins.tsx:388-409 | opening the form on a stored override and saving it untouched stores the same override, except exactly where the base holds null and the empty default is something |
| SessionOverride.ReopenPinsEmptyText | dashboard/src/pages/Plugins.tsx:396-409 | it happens for a text field: nothing is stored first, and the empty text after an untouched save |
| Throttle.WindowBound | src/engine/wa-web-version.ts:52-54 | times a gap apart fall at most width div gap plus one into any window |
| WebVersion.EveryRun | src/engine/wa-web-version.ts:23-81 | in every run at most one fetch is under way, starts lie 60000 ms apart, so a window sees at most width div 60000 plus one, every call is answered once when no fetch is under way, and every version given out is the cached one and starts with a digit |
| WebVersion.CachedForever | src/engine/wa-web-version.ts:50 | once a version is cached no fetch starts and every later call returns it |
| WebVersion.GoodReplyIsCached | src/engine/wa-web-version.ts:62-67 | a version that starts with a digit is yielded, cached, and the answer to every later call |
| WebVersion.BadReplyBacksOff | src/engine/wa-web-version.ts:61-78 | any other end yields nothing; calls get nothing for 60000 ms and start a fetch from then on |
| WebVersion.CallsShareOneFetch | src/engine/wa-web-version.ts:51-55 | the first call starts a fetch and the next shares it |
| WebVersion.VersionResolver.ResolveCurrentWebVersion | src/engine/wa-web-version.ts:49-55 | cache, shared fetch, back-off or a new fetch, in that order |
| WebVersion.VersionResolver.FetchSettled | src/engine/wa-web-version.ts:55-79 | only a well-formed version is cached, anything else sets the back-off, and every sharing caller gets the result |
| S3Probe.EveryRun | src/common/storage/storage.service.ts:119-150 | in every run at most one probe is under way, starts lie 10000 ms apart, so a window sees at most width div 10000 plus one, and every call is answered once when no probe is under way |
| S3Probe.AvailableForever | src/common/storage/storage.service.ts:122-129 | the flag latches: no probe starts again and nobody is told otherwise |
| S3Probe.ReachableRaisesFlag | src/common/storage/storage.service.ts:138-146 | a bucket found reachable, at start-up or by a probe, makes every later answer true; an unreachable one leaves the flag as it is |
| S3Probe.ProbesAfterInterval | src/common/storage/storage.service.ts:134-137 | a call is refused until 10000 ms after the last start and probes from then on |
| S3Probe.CallsShareOneProbe | src/common/storage/storage.service.ts:129-133 | calls await the probe in flight, and without S3 nothing is probed |
| S3Probe.Storage.InitializeS3Bucket | src/common/storage/storage.service.ts:85-105 | the check at start-up raises the flag or leaves it as it is |
| S3Probe.Storage.RefreshS3Availability | src/common/storage/storage.service.ts:128-137 | flag, shared probe, throttle or a new probe, in that order |
| S3Probe.Storage.ProbeSettled | src/common/storage/storage.service.ts:137-149 | the flag only rises, and every waiting caller gets it as it then stands |
| PluginFetch.EveryRun | src/core/plugins/plugin-net.ts:92-160 | in every run the counter is the number of calls in flight plus that of accepted calls with null options, at most 16; the calls hold at most 10 MiB each; every response is the whole of what was read; a call is refused exactly where the two make 16 |
| PluginFetch.CounterIsExactIff | src/core/plugins/plugin-net.ts:104-112 | the counter is the number of calls in flight if and only if no call with null options was accepted |
| PluginFetch.LostAreAcceptedNulls | src/core/plugins/plugin-net.ts:104-112 | every accepted call with null options loses one slot, and nothing gives it back |
| PluginFetch.NullCallsCount | src/core/plugins/plugin-net.ts:104-109 | n such calls raise the counter by n and leave no call in flight |
| PluginFetch.SixteenNullCalls | src/core/plugins/plugin-net.ts:101-109 | after sixteen of them, with nothing in flight, every call is refused |
| PluginFetch.ExhaustedForGood | src/core/plugins/plugin-net.ts:101-109 | and so it stays, whatever comes |
| PluginFetch.EndFreesOneSlot | src/core/plugins/plugin-net.ts:157-159 | however a call in flight ends one slot is free again, none is lost, and the other calls are as they were |
| PluginFetch.ReadKeepsCall | src/core/plugins/plugin-net.ts:132-142 | a chunk adds its bytes at the end of the contents, and a read without a value adds nothing |
| PluginFetch.FetchCompletes | src/core/plugins/plugin-net.ts:101-159 | a call let in whose body fits responds with every byte that was read and leaves the gate as it found it |
| PluginFetch.FetchOverflows | src/core/plugins/plugin-net.ts:136-140 | the chunk that goes over the cap cancels the body and the call ends in an error |
| PluginFetch.DeclaredTooLarge | src/core/plugins/plugin-net.ts:122-125 | a declared length above the cap ends the call in an error before anything is read |
| PluginFetch.ReadBody | src/core/plugins/plugin-net.ts:128-143 | the loop returns everything it read, exactly unless that exceeds the cap, and stops at the chunk that exceeds it |
| PluginFetch.Gate.PerformPluginFetch | src/core/plugins/plugin-net.ts:98-104 | check, increment and reading the options in one step: refused at the cap, else thrown out with its slot kept if the options are null, else started |
| PluginFetch.Gate.Responded | src/core/plugins/plugin-net.ts:121-130 | a declared length above the cap ends the call, else the body is read |
| PluginFetch.Gate.BodyRead | src/core/plugins/plugin-net.ts:132-142 | one turn of the loop: skip, keep or cancel |
| ArchiveImport.EveryRun | src/common/storage/storage.service.ts:276-354 | in every run the promise settles at most once, buffer, entries and total bytes stay within the limits, what is written is what arrived, and success means every entry was written and returns the number of successful writes |
| ArchiveImport.ArchiveIsImported | src/common/storage/storage.service.ts:296-345 | an archive within both limits is imported whole: one file per entry, in order, holding its chunks put together, and the import resolves with the number of writes that succeeded |
| ArchiveImport.EntryIsWritten | src/common/storage/storage.service.ts:296-335 | an entry within the limits leads to one write of exactly what arrived, counted if it succeeds |
| ArchiveImport.EndSettles | src/common/storage/storage.service.ts:289-350 | a run in which the stream ends or fails has exactly one outcome |
| ArchiveImport.SettledForGood | src/common/storage/storage.service.ts:289-345 | once settled no write starts and the outcome stands |
| ArchiveImport.StepKeepsInv | src/common/storage/storage.service.ts:296-350 | each callback keeps the import's invariant |
| ArchiveImport.SettlesIff | src/common/storage/storage.service.ts:296-350 | an import that has not settled rejects exactly when one entry more than the limit starts, more than the cap has arrived for an entry, or the stream fails, and resolves exactly when the stream ends |
| ArchiveImport.Import.EntryStarted | src/common/storage/storage.service.ts:296-309 | counts the entry and rejects beyond the limit |
| ArchiveImport.Import.Data | src/common/storage/storage.service.ts:311-321 | keeps the chunk, or aborts at the per-entry cap without keeping it |
| ArchiveImport.Import.EntryEnded | src/common/storage/storage.service.ts:323-326 | starts one write of the buffered entry, unless aborted or settled |
| ArchiveImport.Import.WriteEnded | src/common/storage/storage.service.ts:327-335 | counts successes only, and lets the next entry follow either way |
| ArchiveImport.Import.Finished | src/common/storage/storage.service.ts:340-345 | resolves with the count, once |

## Left out

- Strings are sequences of characters, storage keys and file names sequences of bytes; lone surrogates and their
  encoding do not arise.
- Handlers in `HookHandlers` are finite programs that do not edit the registry while a chain runs and do not mutate
  `ctx.data` in place; time stamps, sources and session ids of the context are not modelled.
- The payload type of a hook chain is one type throughout; an `error` field that is falsy but present is modelled, other
  shapes of results are not.
- `HookManager` sorts by real-numbered priorities; a comparator on NaN is not modelled.
- PluginStorage.InterruptedRunsRefineMap: a delete may stop between its two unlinks only where `DeleteIsCrashAtomicIff`
  says that this shows the old or the new map.
- PluginStorage.PluginStorage.Delete: a failure in the middle may leave only the legacy file, and that is what its
  contract says; `DeleteIsCrashAtomicIff` gives the exact condition for the map to be the old or the new one.
- PluginStorage.StoreRefinesMap: holds for plain keys, because safe keys that look like encoded names or change under
  path normalisation share files (`EncodedLookingKeyAliases`, `DotSegmentAliases`); `SetIsolationIff` is for all keys.
- File modes, Windows paths, case folding, name length and the plugin registry file are not modelled; a stored `null`
  reads like any other value. Values are JSON values: dates, maps, undefined fields and whatever else `JSON.stringify`
  changes are not modelled.
- PluginLifecycle.EveryRunIsSafe: assumes that a worker sends nothing after it has exited, that terminating it resolves
  and then means the worker is gone (the loader swallows a rejection and drops the host all the same; that is excluded),
  and that disables do not overlap, for which `LeakIffOverlap` is the exact condition. The persisted status is the entry
  in the plugin registry; its file may lag, because a failed write of it is only logged. Built-in plugins, engines, and
  unloading or uninstalling while an enable is in flight are not part of the model.
- ChatThread.SendSettles: speaks about one loaded slice; slices keyed by a different form of the chat id, reactions and
  revoked messages are not modelled. A failed send followed by a late echo does keep two rows (`FailedSend`).
- Ipv4.MatchesBlock: JavaScript's `Number` on the text behind the slash is a parameter that is right on decimal
  numerals.
- `net.isIPv4` and `net.isIPv6` are modelled by the text forms of RFC 4291 with canonical octets; zone identifiers are
  not modelled. That parsed URLs and resolvers spell addresses as section 4 of RFC 5952 recommends is not modelled
  either.
- AddressVerdict.EmbeddedVerdict: does not speak about mapped addresses, because the code classifies them in one
  spelling only; `MappedVerdictIff` is the exact condition.
- Resolving host names, pinning the resolved address and the fetch itself are not modelled.
- Objects of the configuration are values, so that inputs are not mutated holds by construction and is not stated.
- ConfigMerge.DeepMerge: the key `__proto__` is an ordinary key here, and the order of keys is not modelled.
- SessionOverride.SparseThenResolveIff: assumes a base that was stored as JSON and a comparison of JSON texts that
  identifies only values that read back alike; restoring redacted secrets on the server is not modelled, so secret keys
  are only claimed to be carried. Numbers are finite.
- WebVersion.EveryRun: assumes a clock that does not go backwards and is never 0, and a fetch that reports failures by
  rejecting, never by throwing before its first await.
- S3Probe.EveryRun: assumes the same of the clock, which may be 0, and of the S3 client.
- PluginFetch.EveryRun: counts the bytes kept in buffers; a chunk that is about to be refused, and the copy made when
  chunks are joined and decoded, are not counted. Timeouts are failures at an arbitrary moment.
- ArchiveImport.EveryRun: assumes that the tar stream hands out one entry at a time and finishes only after `next` has
  been called for the last one; header kinds, gzip and where the file goes are not modelled.
- `pageWindow`, `paginate`, `shouldDispatchToPlugin`, `makeOnWebhookSubscribe`, `clearBlankEnv`, `replaceMessageById`
  and `removeMessageById` would only add easy members.
- HTTP controllers, queues, the engines' adapters, Redis, S3 transfers, migrations, configuration files and all React
  rendering are not modelled.
