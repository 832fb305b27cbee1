# Verification of the windowed-HDR library

A Dafny model of the parts of the Elden Ring windowed-HDR DLL that carry state,
arithmetic or concurrency, with proofs about it. `dafny verify dfyconfig.toml`
checks everything.

The model has five parts.

- **Managed color space** (`ManagedColorSpace`, `Interleaving`, `FrameAlignment`).
  The per-chain state machine, first under every interleaving of its critical
  sections with driver calls in flight, then with each Present as one event and the
  color the device really has. The second is proved to be a set of schedules of the
  first.
- **SHA-256** (`Sha256Spec`, `Sha256`, `FileHash`, `Sha256Constants`, `Sha256Example`). The
  streaming hasher against FIPS 180-4, for every message and every split into chunks;
  the specification itself against the standard's constants and its first example.
- **Shadow vtables** (`ShadowSpec`, `ShadowStore`, `ConcurrentLoad`). Object-local tables
  on the heap, their expansion and retirement, coexistence with other hooks, and loads
  that run while a table is expanded.
- **Eligibility** (`ActiveChain`, `Snapshot`). The one-entry cache keyed by the active
  chain and its revision, and the lock-free snapshot of both.
- **Code** (`X64`, `Trampolines`, `InlineHooks`, `HookInstall`, `HookedRoutines`,
  `MemoryRegions`, `PeImage`, `Scanners`, `MenuGate`, `GateResolver`, `HookTargets`,
  `HookBundle`, `CodeMeaning`). The bytes of trampolines and jumps are decoded and executed on a
  model of the processor (Intel SDM volume 2A), the image is scanned, and the targets
  are resolved as one bundle.

## What was found

- The repository's README (line 5) says that the previous color space is restored when
  HDR is disabled. That holds for the color captured when the session opened. If the
  chain's owner sets PQ itself while HDR is desired, that set counts as agreement and
  is undone later: `FrameAlignment.OwnerGetsItsLastColorBackIff` is the exact condition.
- A reconfiguration that changes the color of a chain nobody manages is not recorded;
  a session opened afterwards captures, and later restores, the recorded color
  (`FrameAlignment.StaleCaptureIsRestored`; `FrameAlignment.CaptureIsCurrentIff` says
  when).
- A pending flag without a baseline is reachable, by one kind of step unless 2^64 bumps
  pass during a driver call (`Interleaving.PendingOutlivesItsSessionIff`,
  `Interleaving.WrappedFailureLeavesPending`); `begin_transition` checks both, so
  nothing comes of it.
- A session can be latched while HDR is still desired (`Interleaving.LatchedWhileDesired`),
  exactly when an outdated driver call fails (`Interleaving.LatchesWhileDesiredIff`); the
  fallback request of the backend query is what keeps its answer true then.
- Epochs are 64-bit and wrap. Agreement of a current completion with the desired state
  survives wrap-around; that a completion closes only its own session needs fewer than
  2^64 bumps per driver call (`Interleaving.WrappedCompletionClosesAnotherSession`).
- Expansion depends on the hook lists of real interfaces: a slot below the old length
  that only the longer list names would never be hooked (`ShadowSpec.GapLosesAHook`).
- A cached answer can be stale if a chain is captured, or a hook through
  QueryInterface succeeds, at an address that is already the active one
  (`ActiveChain.AnswerAfterCaptureIff`).
- A snapshot's pair did hold at some instant, but writers change the pointer before
  they count, so a reused address can briefly show its old key. A key seen again stands
  for the same state exactly if no more writers are half done than before
  (`Snapshot.KeyIdentifiesTheStateIff`), and an answer cached under it is fresh when
  nobody is half done (`Snapshot.CachedAnswerIsFresh`).
- The backend query reads its key without validation and uses 0 while another chain is
  active. Its answers under a nonzero key are as good (`Snapshot.BackendAnswerIsFresh`);
  one under the zero key may predate a reconfiguration
  (`Snapshot.ZeroKeyHidesAReconfiguration`).
- A memory write that fails after copying leaves a routine patched without a published
  original (`HookInstall.HookSite.Install`); it is the only way to get there.
- Cloning accepts execute-only pages that the region walk calls unreadable
  (`MemoryRegions.CloneAcceptsUnreadableCode`); `MemoryRegions.CloneableIsReadableIff`
  is the exact condition.

## Model

| member | source | states |
|---|---|---|
| ManagedColorSpace.ManagedColorSpaceState.RequestHdr | src/dxgi.rs:285-308 | An HDR request opens a session, flips the desired state or does nothing, and says whether it was accepted; the new state is the session value the lemmas below reason about |
| ManagedColorSpace.ManagedColorSpaceState.BeginTransition | src/dxgi.rs:310-326 | A transition starts only when one is armed, none is in progress and a baseline is held; it carries target, direction and epoch |
| ManagedColorSpace.ManagedColorSpaceState.FinishTransition | src/dxgi.rs:328-347 | What a reported result does to the session, for current and stale epochs, success and failure |
| ManagedColorSpace.ManagedColorSpaceState.ReapplyAfterReconfiguration | src/dxgi.rs:349-353 | A reconfiguration re-arms an open session unless a failure is latched |
| ManagedColorSpace.ManagedColorSpaceState.ObserveExternalSet | src/dxgi.rs:355-382 | A foreign color either agrees with the expected one or relinquishes the chain for good, and the result says which |
| ManagedColorSpace.ForeignSetDisarms | src/dxgi.rs:355-382 | After a foreign set of any color nothing is left to start |
| Interleaving.NextKeepsInv | src/dxgi.rs:284-383 | Under every interleaving of critical sections with driver calls in flight, one step keeps: at most one flight, no forgotten restoration, desired only with a baseline, epoch parity equal to the desired state |
| Interleaving.RunKeepsInv | src/dxgi.rs:284-383 | The same for whole runs |
| Interleaving.AtMostOneInFlight | src/dxgi.rs:310-382 | No schedule ever has two driver calls outstanding although a conflicting foreign set clears the in-progress flag early, and the flag never stands without the flight that will clear it |
| Interleaving.RelinquishedForGood | src/dxgi.rs:285-382 | After a foreign conflict nothing is started, captured or un-latched again, whatever follows |
| Interleaving.StartsHaveCauses | src/dxgi.rs:285-382 | Over every schedule each driver call uses up one reason for it: a request that changed what is wanted, a reconfiguration of an open session, or the failure of the current enabling call |
| Interleaving.ForeignSetLeavesNothingToStart | src/dxgi.rs:355-382 | After a foreign set no driver call starts until one of these |
| Interleaving.LatchedStep | src/dxgi.rs:285-382 | Once a failure is latched, the number of driver calls that can still start never rises and every start uses one up |
| Interleaving.RetryBound | src/dxgi.rs:285-382 | The same bound over every continuation of a latched state |
| Interleaving.NoUnboundedRetry | src/dxgi.rs:285-382 | After the first failure at most two driver calls ever start, at most one of them enabling, and the latch stays |
| Interleaving.RetryBoundIsTight | src/dxgi.rs:285-382 | A schedule that attains both bounds |
| Interleaving.LatchedWhileDesired | src/dxgi.rs:285-353 | A schedule that ends latched with HDR still desired and an enable pending |
| Interleaving.LatchesWhileDesiredIff | src/dxgi.rs:285-382 | A step leaves a session latched with HDR still desired exactly if HDR was desired and a driver call started for an earlier request fails |
| Interleaving.EnablingRetryIff | src/dxgi.rs:285-382 | After a failure another enabling call can start if and only if HDR is desired and a transition is armed |
| Interleaving.AcceptedRequestDecides | src/dxgi.rs:285-308 | Whatever is in flight or latched, an accepted request leaves the session wanting exactly what was asked for |
| Interleaving.LastAcceptedRequestDecides | src/dxgi.rs:285-308 | The same at the end of every schedule, so also for the second request of a query after anything came between |
| Interleaving.RestorationNeverForgotten | src/dxgi.rs:301-353 | A captured, un-latched chain that no longer wants HDR has its restoration pending or in flight under the current epoch |
| Interleaving.OwedRestorationCanAlwaysComplete | src/dxgi.rs:301-353 | From every such state successful driver calls close the session with the captured color as the recorded one, provided no flight was overtaken by 2^64 bumps |
| Interleaving.CompletionIsCurrentIff | src/dxgi.rs:328-347 | A completion passes for current exactly when the number of epoch bumps since it began is a multiple of 2^64 |
| Interleaving.EpochSoundness | src/dxgi.rs:285-347 | Outside relinquished states a flight carrying the session's epoch agrees with the session about whether HDR is wanted, even across wrap-around |
| Interleaving.EpochSoundnessEverywhere | src/dxgi.rs:285-382 | In every reachable state, relinquished ones included, if fewer than 2^64 bumps passed during a flight |
| Interleaving.ConflictOverrulesFlights | src/dxgi.rs:328-382 | A flight that outlives a conflicting foreign set is stale from then on, under every continuation, if fewer than 2^64 bumps passed before it |
| Interleaving.StaleCompletionIsHarmless | src/dxgi.rs:328-347 | A stale completion changes nothing but the in-progress flag and the latch |
| Interleaving.CompletionClosesItsOwnSession | src/dxgi.rs:328-347 | With fewer than 2^64 bumps in flight, a completion that closes a session restored exactly that session's captured color |
| Interleaving.WrappedCompletionClosesAnotherSession | src/dxgi.rs:285-347 | Without that bound it fails: a schedule in which a leftover restore closes a newer session at the wrong color |
| Interleaving.BaselineIsCapturedOnce | src/dxgi.rs:285-353 | While a session stays open its baseline never changes |
| Interleaving.CaptureIsTheObservedColor | src/dxgi.rs:285-300 | A session opens only through an accepted HDR request, with the color observed at that moment |
| Interleaving.PendingMayOutliveItsSession | src/dxgi.rs:310-353 | The pending flag can stand after the session has closed, and nothing can start from it |
| Interleaving.PendingOutlivesItsSessionIff | src/dxgi.rs:310-353 | In any state, a step leaves the flag standing without a session exactly when a disabling flight of the current epoch succeeds while the flag is set, if fewer than 2^64 bumps passed during the flight |
| Interleaving.WrappedFailureLeavesPending | src/dxgi.rs:328-382 | Without that bound a failed enabling call can do it on a relinquished chain |
| FrameAlignment.RunKeepsValid | src/dxgi.rs:1374-1706 | With each Present running to completion, an HDR session that is done is on PQ, the baseline is the color the owner left, and the recorded color is the device's unless a reconfiguration changed that |
| FrameAlignment.QueryAgreesWithItsAnswer | src/game_hdr.rs:543-587 | After every synchronizing query on a captured chain the desired flag equals the answer given to the game |
| FrameAlignment.OverridesIff | src/game_hdr.rs:543-587 | The exact condition under which the query overrides the native answer |
| FrameAlignment.AnswerIsCarriedOut | src/game_hdr.rs:566-587 | A synchronized override leaves HDR desired, any other synchronized answer does not, and a chain that was never captured is neither overridden nor changed |
| FrameAlignment.QueryAgreesInEverySchedule | src/game_hdr.rs:543-587 | The same under every interleaving with driver calls in flight, also when the latch rejected the request while HDR was still desired |
| FrameAlignment.FallbackHasWorkToDo | src/game_hdr.rs:579-587 | A schedule in which it is the fallback request that makes the flag agree |
| FrameAlignment.EveryFrameIsAligned | src/dxgi.rs:1595-1706 | At every forwarded Present a failure is latched, or HDR is desired on a PQ chain, or nothing is managed and the chain carries its owner's color, even if reconfigurations reset the color to anything; only a reset of an unmanaged chain is left alone |
| FrameAlignment.IneligiblePresentNeverEnables | src/dxgi.rs:1609-1640 | Without an eligible candidate an enabling attempt makes no driver call, leaves the color and latches the failure |
| FrameAlignment.RejectedCallLatches | src/dxgi.rs:1609-1640 | What the driver rejects leaves the color and latches the failure |
| FrameAlignment.AcceptedCallSucceeds | src/dxgi.rs:1609-1640 | An eligible enabling call, or a restore, that the driver accepts sets the expected color and latches nothing |
| FrameAlignment.PqNeedsACause | src/dxgi.rs:1595-1640 | Over every run a chain comes to PQ only at an eligible Present, by restoring a PQ baseline, or through somebody else |
| FrameAlignment.FrameMatchesTheQueryAnswer | src/dxgi.rs:1547-1640 | The answer to a query and the color of the next frame match, unless a failure is latched by then or a chain that is not managed was reset |
| FrameAlignment.RestoreReturnsTheCapturedColor | src/dxgi.rs:1595-1640 | A managed restore that closes a session leaves the device at exactly the color observed when it opened, whatever reconfigurations came between |
| FrameAlignment.CaptureIsCurrentIff | src/dxgi.rs:1547-1592 | A session captures the color the chain carries exactly if no reconfiguration came since a color was last set, or the last one left the recorded color |
| FrameAlignment.RunCarries | src/dxgi.rs:1595-1706 | At all times the chain carries what the last such reconfiguration left, or else the recorded color |
| FrameAlignment.StaleCaptureIsRestored | src/dxgi.rs:1547-1640 | A run in which a session closes at a color the chain did not carry when it opened |
| FrameAlignment.ManagementLeavesNoTrace | src/dxgi.rs:1547-1640 | In a run without foreign sets an unmanaged chain always has the color it was created with, or one a reconfiguration left |
| FrameAlignment.OwnerGetsItsLastColorBackIff | src/dxgi.rs:355-382 | The owner gets back the color it set last exactly unless it set PQ itself while HDR was desired over another captured color |
| FrameAlignment.OwnerMayNotGetItsLastColorBack | src/dxgi.rs:355-382 | A run in which it does not |
| FrameAlignment.FailureEndsManagement | src/dxgi.rs:285-383 | After a failure at most one more driver call is made, HDR is never claimed again and the baseline is never replaced |
| FrameAlignment.EventIsASchedule | src/dxgi.rs:1374-1640 | Each hook call is a short schedule of the interleaved system |
| FrameAlignment.RunIsASchedule | src/dxgi.rs:1374-1640 | Every run of hooks is one schedule of the interleaved system, so all invariants above carry over |
| FrameAlignment.SwapChain.RequestManaged | src/dxgi.rs:1547-1592 | The chain's part of a color request, and no effect on a chain that was never captured |
| FrameAlignment.SwapChain.BackendQuery | src/game_hdr.rs:543-587 | The in-place decision refines the query event and returns native or overridden |
| FrameAlignment.SwapChain.ApplyBeforePresent | src/dxgi.rs:1595-1640 | Beginning, calling the driver and finishing refine the Present event, eligibility re-checked only for enabling |
| FrameAlignment.SwapChain.AdvanceGeneration | src/dxgi.rs:1697-1706 | A reconfiguration, whatever color it leaves, refines its event |
| FrameAlignment.SwapChain.SetColorSpace1 | src/dxgi.rs:1374-1410 | A foreign set refines its event if the driver accepted it and is otherwise ignored; the conflict is reported |
| Sha256.RotationsAgree | src/sha256.rs:112-133 | The rotations of the code are the sigma functions of FIPS 180-4 section 4.1.2 |
| Sha256.ExpandSchedule | src/sha256.rs:101-122 | The in-place schedule loop computes the recursive message schedule of section 6.2.2 |
| Sha256.RunRounds | src/sha256.rs:124-145 | The rolling eight-variable loop computes 64 applications of the round function |
| Sha256.CompressBlock | src/sha256.rs:100-150 | In-place compression equals the specification for every state and block |
| Sha256Spec.WorkingVariables | src/sha256.rs:124-149 | The working variables a to h are the words of the hash in order, both ways |
| Sha256Example.DigestOfAbc | src/sha256.rs:173-183 | The digest of "abc" is the one the standard prints, derived from the specification word by word |
| Sha256.Hasher.FillBlock | src/sha256.rs:55-65 | Topping up the buffer absorbs a full block or consumes all input, losing and reordering nothing |
| Sha256.Hasher.AbsorbBlocks | src/sha256.rs:67-72 | Complete blocks are folded straight from the input |
| Sha256.Hasher.Update | src/sha256.rs:53-75 | For any chunk, empty ones included: fewer than 64 bytes buffered, state = fold over all complete blocks, buffer = the message's tail |
| Sha256.Hasher.Finalize | src/sha256.rs:77-97 | The digest of everything absorbed, however it was chunked |
| Sha256Spec.HashBlocksAppend | src/sha256.rs:53-75 | Folding over a concatenation is folding in two steps |
| Sha256Spec.SplitIsUnique | src/sha256.rs:53-75 | A message splits into complete blocks and a shorter rest in just one way |
| Sha256Spec.PaddingIsMinimal | src/sha256.rs:78-88 | The padding's zero bits are the least number section 5.1.1 allows |
| Sha256Spec.LengthFieldValue | src/sha256.rs:78-88 | The length field reads back as the bit length |
| Sha256Spec.PaddedTail | src/sha256.rs:79-89 | The one-block and the two-block ending are both the standard's padding |
| Sha256Spec.HashBytesRoundTrip | src/sha256.rs:91-96 | Reading the digest's bytes back gives the final hash words |
| FileHash.FileHex | src/sha256.rs:22-34 | Whatever the reads deliver, the result is the printed digest of the bytes before the end, or a failure if a read failed first |
| FileHash.ContentsOfReads | src/sha256.rs:26-32 | The contents are the chunks before the first empty read; a failure before that is a failure |
| FileHash.ChunksDoNotMatter | src/sha256.rs:185-194 | Two ways to cut a message into reads give the same contents |
| FileHash.HexRoundTrip | src/sha256.rs:152-160 | Reading the text back, high digit first, with decimal digits and upper-case letters, gives the bytes |
| FileHash.ToHexInjective | src/sha256.rs:152-160 | Digests that print alike are equal |
| Sha256Constants.InitialHashIsSquareRoots | src/sha256.rs:7-9 | The initial hash words are the first 32 fractional bits of the square roots of the first primes |
| Sha256Constants.RoundConstantsAreCubeRoots | src/sha256.rs:11-20 | The 64 round constants are those of the cube roots |
| ShadowSpec.HooksNeverDispatchToThemselves | src/dxgi.rs:2580-2619 | After any installs and any foreign writes to shadow and root slots, every hooked slot forwards to something that is not its own replacement |
| ShadowSpec.FreshHooksEverySlot | src/dxgi.rs:2313-2327 | A first installation hooks every listed slot, leaves all others as in the root, and saves every original |
| ShadowSpec.AgainHooksEverySlot | src/dxgi.rs:2405-2442 | An expansion leaves every listed slot hooked unless it was hooked before and wrapped since, and saves what stood in the new slots |
| ShadowSpec.FullHookLists | src/dxgi.rs:1053-1122 | The slots hooked in the longest interfaces, spelled out |
| ShadowSpec.ShorterHookLists | src/dxgi.rs:829-867 | Shorter interfaces have those of them that they have slots for |
| ShadowSpec.LivePreference | src/dxgi.rs:2599-2619 | A live foreign root entry is preferred to the saved original, our own replacement never |
| ShadowSpec.NothingSavedNothingLoaded | src/dxgi.rs:2580-2601 | Without a saved original there is nothing to forward to |
| ShadowSpec.NoSelfDispatch | src/dxgi.rs:2523-2619 | For real interface lengths that covers every slot with a replacement |
| ShadowSpec.ExpansionKeepsWrappers | src/dxgi.rs:2405-2442 | Expansion keeps a foreign in-place wrapper and the original beneath it |
| ShadowSpec.OriginalsOnlyGrow | src/dxgi.rs:2396-2428 | Saved originals are never lost or replaced |
| ShadowSpec.ExpansionIsDirectIff | src/dxgi.rs:2382-2458 | Expanding gives the slots of a direct install exactly if no slot below the old length is hooked only by the longer list; originals agree always |
| ShadowSpec.GapLosesAHook | src/dxgi.rs:2430-2442 | With such a gap the slot is taken for somebody's wrapper and never hooked |
| ShadowSpec.InterfaceLengthsHaveNoGap | src/dxgi.rs:2651-2674 | The lengths of real interfaces have no gap |
| ShadowSpec.ExpansionIsConfluent | src/dxgi.rs:2254-2458 | Any sequence of interface lengths leaves the slots, originals and count of one install with the longest |
| ShadowStore.ShadowStore.FindRecord | src/dxgi.rs:2493-2506 | Finds the active record of an instance if and only if there is one |
| ShadowStore.ShadowStore.FindGeneration | src/dxgi.rs:2508-2521 | Finds the newest generation if the table is ours, nothing for a foreign table |
| ShadowStore.ShadowStore.Publish | src/dxgi.rs:2330-2380 | A record becomes active only if the pointer swap won; a lost race leaves the winner's table in place |
| ShadowStore.ShadowStore.InstallNew | src/dxgi.rs:2293-2380 | A first install gives exactly the planned shadow over the instance's own table, or an error that leaves the table pointer alone and adds no active record |
| ShadowStore.ShadowStore.InstallAgain | src/dxgi.rs:2279-2291 | A further install is an expansion, or nothing on a foreign or long enough table; no other active record changes |
| ShadowStore.ShadowStore.Install | src/dxgi.rs:2254-2380 | A new shadow holds our replacement in every listed slot and the root's entry in every other. Framing: the instance's own root, every other active record and every root that is not this instance's shadow are untouched, at most one active record per instance and kind, every error but the final re-protect failure changes nothing |
| ShadowStore.FirstOutcomeIsOkIff | src/dxgi.rs:2293-2380 | A first installation succeeds exactly if nothing goes wrong |
| ShadowStore.OutcomeFrames | src/dxgi.rs:2279-2291 | A foreign table is no error and changes nothing; every error but the last leaves the tables alone |
| ShadowStore.OutcomeHooks | src/dxgi.rs:2382-2458 | A further installation that succeeds on our own table leaves every listed slot hooked or wrapped |
| ShadowStore.Expand | src/dxgi.rs:2382-2458 | In-place expansion refines the specification, with the exact outcome of each failure |
| ShadowStore.CloneAndHook | src/dxgi.rs:2297-2328 | The hooked clone and the saved originals, or the first error in the code's order |
| ShadowStore.WriteHooks | src/dxgi.rs:2325-2327 | Exactly the listed slots are replaced |
| ShadowStore.RewriteHooks | src/dxgi.rs:2430-2442 | Slots wrapped by others are kept, all other listed slots are replaced |
| ShadowStore.ShadowStore.Release | src/dxgi.rs:2226-2252 | Forwards to a real Release and retires the record after the last reference only |
| ShadowStore.ShadowStore.LoadFunction | src/dxgi.rs:2580-2628 | What a hook forwards to; never null and never itself |
| ConcurrentLoad.LoadsAreAtomic | src/dxgi.rs:2580-2619 | Under every interleaving with expansions and foreign root writes a load never reads behind a table, returns what an uninterrupted one would have at some instant of the call, and never a hooked slot's own replacement |
| ConcurrentLoad.RunIsExplained | src/dxgi.rs:2421-2428 | The originals are stored before their count, so every state of a load is explained by an earlier instant |
| ConcurrentLoad.CountFirstWouldOverrun | src/dxgi.rs:2427-2428 | With the two stores exchanged a load between them would read behind the old table |
| ShadowStore.InstallAndLoad | src/dxgi.rs:2254-2380 | Right after a first install every slot forwards to the root's own entry |
| ShadowStore.ReinstallAtReusedAddress | src/dxgi.rs:2226-2380 | After a final release, hooking another object at the same address dispatches only through that object's table |
| ActiveChain.NextIsValid | src/dxgi.rs:1714-1755 | The revision rises with every change of the active chain; coherence survives an event exactly unless it is a capture with a changed result behind a current cache entry |
| ActiveChain.RunIsCoherent | src/game_hdr.rs:627-672 | The cache tells the truth over whole runs without such a capture |
| ActiveChain.AnswersAreFresh | src/game_hdr.rs:627-672 | In those runs, through reconfiguration, release and address reuse, every answer, hit or miss, equals a fresh inspection |
| ActiveChain.AnswerAfterCaptureIff | src/game_hdr.rs:627-672 | A capture leaves the next answer correct exactly unless a current entry hides a changed result |
| ActiveChain.SurpriseBreaksCoherence | src/game_hdr.rs:627-672 | A run with a stale answer: the backend names a chain before it is captured |
| ActiveChain.KeysAreNotReused | src/dxgi.rs:1714-1755 | An unchanged revision means an unchanged active chain |
| ActiveChain.ReleasedStaysInactive | src/dxgi.rs:2237-2245 | After its last release a chain is not active until it is created or named again; if it was active, nothing is |
| ActiveChain.NamedStaysActive | src/dxgi.rs:1737-1749 | The active chain stays active until another is named or it is released |
| ActiveChain.NamingActivates | src/dxgi.rs:1741-1749 | A named chain is active, and counts a revision exactly if it was not before |
| ActiveChain.OthersDoNotCount | src/dxgi.rs:1751-1755 | Reconfiguring or releasing another chain changes neither the active chain nor its revision |
| ActiveChain.ZeroRevisionIff | src/dxgi.rs:1729-1735 | A key's revision is 0 exactly for chains that are not active |
| ActiveChain.AnswersAreRemembered | src/game_hdr.rs:641-672 | Asked again under the same key the cache repeats its answer without an inspection |
| ActiveChain.OtherKeysAreInspected | src/game_hdr.rs:641-672 | Under any other key the inspection decides, and a failed one means not eligible |
| ActiveChain.ActiveSwapChain.NoteActive | src/dxgi.rs:1741-1749 | Swapping the active chain counts a revision |
| ActiveChain.ActiveSwapChain.NoteReconfiguration | src/dxgi.rs:1751-1755 | Reconfiguring the active chain counts a revision |
| ActiveChain.ActiveSwapChain.NoteRelease | src/dxgi.rs:2237-2245 | Retiring the active chain counts a revision |
| ActiveChain.CandidateCache.IsEligible | src/game_hdr.rs:627-672 | The in-place cache refines the lookup |
| ActiveChain.Eligibility.BackendCandidate | src/game_hdr.rs:534-566 | The backend query's candidate check answers what a fresh inspection would |
| ActiveChain.Eligibility.CommonAvailability | src/game_hdr.rs:313-378 | The availability hook answers native support, or the override on a freshly eligible active chain |
| Snapshot.SnapshotHeldAtSomeInstant | src/dxgi.rs:1714-1727 | Under any interleaving with the two-step writers a snapshot is a pair that held at some instant during the call |
| Snapshot.UndisturbedReadSucceeds | src/dxgi.rs:1714-1727 | A reader left alone for three loads gets the current pair |
| Snapshot.HalfDoneWritersHideAReuse | src/dxgi.rs:1741-1755 | While writers are half done a reused address can show its old key |
| Snapshot.ChangesAreCounted | src/dxgi.rs:1741-1755 | Under every interleaving the revision plus what half-done writers still owe grows by exactly the changes begun |
| Snapshot.KeyHidesNoChangeIff | src/dxgi.rs:1714-1755 | A revision seen again hides no change exactly if no more writers are half done than before; with none half done the whole key stands for one state |
| Snapshot.KeyIdentifiesTheStateIff | src/dxgi.rs:1697-1755 | The same with reconfiguring calls whose hooks have not begun to note them |
| Snapshot.CachedAnswerIsFresh | src/game_hdr.rs:627-672 | An answer inspected any time after its key's revision was read, and given under the same revision when nobody is half done, is what inspecting the active chain would find |
| Snapshot.BackendAnswerIsFresh | src/dxgi.rs:1729-1735 | The backend reads its key in two loads that need not belong together; an answer given under a nonzero key when nobody is half done is still fresh |
| Snapshot.ZeroKeyHidesAReconfiguration | src/dxgi.rs:1729-1735 | Under the zero key it need not be, even when nobody is half done at either look |
| Snapshot.StaleAnswerWhileHalfDone | src/game_hdr.rs:627-672 | Otherwise it need not be: the same key with another answer |
| Trampolines.JumpReachesItsDestination | src/game_hdr.rs:892-898 | Decoding and executing the jump's bytes reaches the destination and changes nothing else |
| Trampolines.RunPrologue | src/game_hdr.rs:793-805 | What the displaced 14 bytes do in their place |
| Trampolines.RunTrampoline | src/game_hdr.rs:793-805 | What the 34 trampoline bytes do, jump included |
| Trampolines.TrampolineReplacesPrologue | src/game_hdr.rs:793-805 | From any registers and flags both reach the instruction behind the prologue with the same registers, flags and memory |
| Trampolines.TrampolineNeedsTheCookie | src/game_hdr.rs:793-805 | If the patched memory holds another cookie, RAX always comes out differently |
| X64.XorInjective | src/game_hdr.rs:793-805 | Mixing the stack pointer into the cookie loses nothing |
| X64.ReturnUndoesCall | src/game_compat.rs:420-434 | A return undoes a call: back behind it, with the stack pointer as it was |
| InlineHooks.ExecuteAlike | src/game_hdr.rs:807-846 | A position-independent instruction does the same on two machines that differ only in code, if what it reads means the same |
| InlineHooks.CopyRuns | src/game_hdr.rs:807-846 | A copy of straight-line code runs to its end wherever it stands |
| InlineHooks.CopiesRunAlike | src/game_hdr.rs:807-846 | Two copies that read the same end alike |
| InlineHooks.CopiedPrologueRunsAlike | src/game_hdr.rs:807-846 | A copied prologue with its jump back arrives where the prologue did, alike if both read the same, and only then if the prologue reveals what it reads |
| InlineHooks.ConfigPrologueIsRelocatable | src/game_compat.rs:56-79 | The graphics-config prologue decodes into position-independent instructions |
| InlineHooks.BackendPrologueIsRelocatable | src/game_compat.rs:81-99 | So does the backend query's |
| InlineHooks.ConfigPrologueIsRevealing | src/game_compat.rs:56-79 | The graphics-config prologue reveals what it reads |
| InlineHooks.BackendPrologueIsRevealing | src/game_compat.rs:81-99 | So does the backend query's |
| HookInstall.CopyInto | src/game_hdr.rs:793-805 | A slice copy replaces exactly its range |
| HookInstall.BuildAbsoluteJump | src/game_hdr.rs:892-898 | The array filled in place is the jump |
| HookInstall.BuildAvailabilityTrampoline | src/game_hdr.rs:793-805 | The array filled in place is the trampoline |
| HookInstall.HookSite.Install | src/game_hdr.rs:691-791 | Success condition, framing, idempotence and what is restored when the patch does not stick; the routine ends up patched without an original in exactly one case, a write that fails after copying |
| HookedRoutines.HookAvailability | src/game_hdr.rs:691-791 | A resolved cookie always survives the installer's own address check; after success the routine enters the replacement, and the published original does what the routine did exactly if patching left the cookie as it was |
| HookedRoutines.TrampolineStandsForPrologueIff | src/game_hdr.rs:793-805 | For all registers and flags, exactly if the cookie reads the same |
| HookedRoutines.HookCopied | src/game_hdr.rs:807-890 | The same for a routine whose prologue is copied: exactly if the displaced instructions read the same in both places |
| MemoryRegions.RangeIsReadable | src/windows.rs:168-221 | Ends on every map; on an honest one answers yes exactly if the range is non-empty, does not wrap and every byte is readable in a region that does not wrap |
| MemoryRegions.ReadableProtections | src/windows.rs:196-208 | Which protections count as readable and which as inaccessible, bit by bit |
| MemoryRegions.OrdinaryPagesAreReadable | src/windows.rs:196-208 | Ordinary code, constant and data pages are readable; guarded, inaccessible and reserved ones are not |
| MemoryRegions.CloneMemoryRegionContaining | src/windows.rs:284-358 | Exact success condition; requested room on both sides, zero prefix, every source byte at its old distance from the address |
| MemoryRegions.CloneAcceptsUnreadableCode | src/windows.rs:314-319 | Execute-only pages pass for cloning although the region walk rejects them |
| MemoryRegions.CloneableIsReadableIff | src/windows.rs:311-331 | What passes the check before cloning is readable exactly if its protection has a readable bit and its region does not reach the end of the address space |
| MemoryRegions.CloneTable | src/dxgi.rs:2293-2312 | The clone holds as many entries as the root's region, at least those asked for, each equal to the root's |
| PeImage.SectionBytes | src/game_compat.rs:823-837 | A section is read exactly if its flags and current page protections allow |
| PeImage.BytesAt | src/game_compat.rs:839-853 | A checked read succeeds exactly inside one readable section with readable pages |
| PeImage.ReadUsize | src/game_compat.rs:861-866 | The little-endian pointer, under the same condition |
| PeImage.VaToRva | src/game_compat.rs:908-912 | Exactly the addresses of the image are translated, and back |
| PeImage.ContainsEveryByteIff | src/game_compat.rs:665-671 | A section contains a range exactly if it has all its bytes |
| PeImage.DataIsNotCode | src/game_compat.rs:896-906 | If sections do not overlap no byte is both data and code |
| PeImage.ReadAsciiCString | src/game_compat.rs:868-886 | Returns a string exactly if that terminated ASCII string stands there in full |
| PeImage.StringsAreAscii | src/game_compat.rs:868-886 | Strings that are returned are 7-bit, without a terminator, and within the limit |
| Scanners.EnumerationIsUnique | src/game_compat.rs:782-821 | A scan's result is determined by its set of sites |
| Scanners.MatchesAreDeterminedByCoveredBytes | src/game_compat.rs:127-139 | Given one match the others are exactly the strings that agree on the covered bytes |
| Scanners.MatchesIffEveryByteDoes | src/game_compat.rs:127-139 | A signature matches exactly if every byte of every segment stands in its place within the signature's length |
| Scanners.FindSignature | src/game_compat.rs:782-796 | All and only the matching places in scan order, or an error exactly if some executable section is unreadable |
| Scanners.FindDirectCallsTo | src/game_compat.rs:798-821 | The same for direct calls to a target |
| Scanners.RelativeTarget | src/game_compat.rs:633-638 | The mathematically exact sum if it is an address, nothing otherwise |
| Scanners.UniqueIffOneSite | src/game_compat.rs:409-418 | The uniqueness test passes exactly if the set of sites is a singleton |
| HookTargets.CallSitesAreCalls | src/game_compat.rs:798-821 | Reported call sites are exactly those from which the processor goes to the target |
| HookTargets.RelativeAndAbsoluteAgree | src/game_hdr.rs:719-735 | Displacements relative to the image and to absolute addresses give the same target |
| HookTargets.ResolveSecurityCookie | src/game_compat.rs:436-472 | Returns a cookie exactly if the routine starts with the cookie prologue, loads that place, and it is aligned data |
| HookTargets.MenuGateBodyMatches | src/game_compat.rs:420-434 | Recognizes exactly the gate's 19 bytes with a call to the availability routine |
| HookTargets.GateCallsAvailability | src/game_compat.rs:420-434 | A gate's own call is among the calls the scan reports |
| HookTargets.GateEnters | src/game_compat.rs:420-434 | The gate's first two instructions enter the routine with the address behind the call on the stack |
| HookTargets.GateReturns | src/game_compat.rs:420-434 | Its last four negate the answer in AL and return to the caller |
| HookTargets.GateNegatesAvailability | src/game_compat.rs:420-434 | Whatever the routine does meanwhile, the gate returns the negation of its answer |
| MenuGate.IsHdrMenuLambdaName | src/game_compat.rs:625-631 | Exactly the names prefix, 32 hexadecimal digits, suffix |
| CodeMeaning.LambdaNamesIff | src/game_compat.rs:625-631 | The same with the constants spelled out |
| MenuGate.ReadLocator | src/game_compat.rs:577-602 | Follows the locator to the class name, with every field checked |
| MenuGate.LocatorLayout | src/game_compat.rs:577-602 | The locator's 24 bytes are the numbers 1, 0, 0, type descriptor, class descriptor, own address |
| MenuGate.ReadEntries | src/game_compat.rs:604-614 | The six entries, exactly if all lead to executable code |
| MenuGate.ValidateMenuGateVtable | src/game_compat.rs:550-623 | Succeeds exactly on vtables of the menu lambda whose invoke entry is the gate |
| MenuGate.DescriptionIsUnique | src/game_compat.rs:550-623 | Everything reported about a vtable is determined by its place; its invoke entry is the gate and is code |
| MenuGate.VtableLayout | src/game_compat.rs:550-622 | The locator's slot stands before six entries, of which the one with index 2 is the gate |
| GateResolver.CheckReference | src/game_compat.rs:484-517 | Follows the instruction at one place; a vtable comes out exactly if it is a LEA to one of the gate |
| CodeMeaning.LeaBytes | src/game_compat.rs:484-489 | The instructions that count, byte by byte |
| CodeMeaning.ReferencesLoadTheTarget | src/game_compat.rs:484-497 | They are those that load the target's address into a register |
| GateResolver.Tally | src/game_compat.rs:518-525 | The candidates stay the distinct targets with their true counts |
| GateResolver.ResolveMenuGateVtable | src/game_compat.rs:474-548 | Succeeds exactly if all code is readable and one vtable only is referred to, at least twice; the count is the number of references |
| HookBundle.FindGate | src/game_compat.rs:243-270 | A gate is found exactly if the routine has two examinable callers and one of them only is a gate |
| HookBundle.Resolve | src/game_compat.rs:208-343 | All targets are returned exactly if a consistent bundle exists and agrees with the record of a known build |
| HookBundle.BundleIsUnique | src/game_compat.rs:208-343 | An image has at most one bundle |
| CodeMeaning.CookieIsApart | src/game_compat.rs:436-472 | In a linked image the cookie lies apart from the prologue that is patched |
| CodeMeaning.VtableIsApart | src/game_compat.rs:550-622 | In a linked image no entry of the vtable lies within the vtable |
| HookBundle.SignaturePinsPrologue | src/game_compat.rs:782-796 | A signature that prescribes a routine's first bytes fixes the prologue that is displaced later |

## Left out

- Win32 and COM calls, page protection and instruction-cache flushing: their outcomes
  are parameters; memory maps and protections are fixed during one call.
- Poisoned locks: every lock is assumed to be acquired.
- The map from chain addresses to color states: each chain is modelled by itself, and
  use of a chain after its final release, or one COM object behind several interface
  pointers, is not modelled.
- Weak memory orderings: atomics are sequentially consistent.
- Wrap-around of the active-chain revision (a `usize`): it is unbounded.
- The loops of `active_swap_chain_snapshot` need not end while writers keep counting;
  only answers are covered, and that an undisturbed reader gets one.
- ShadowStore.ShadowStore.Install: one installation runs at a time, as under the
  installation lock. Loads that overlap an expansion are the subject of `ConcurrentLoad`;
  a hook that is dispatched between the first store of the table pointer and the last
  one of its generation is not modelled.
- Memory around a table: `ShadowStore` clones the table to the end of its region;
  `MemoryRegions.CloneTable` proves that this is what the region clone provides.
- The undefined adjust flag of logical instructions: X64 makes it false.
- The registers R8 to R15, RBP and RSI, which no modelled instruction names.
- Interleaving.OwedRestorationCanAlwaysComplete: speaks of the recorded color, because
  the order in which overlapping driver calls reach the device is not modelled there;
  the color of the device is the subject of `FrameAlignment`.
- ActiveChain.AnswersAreFresh: a change of eligibility outside hooked calls is not seen
  by the cache and is not modelled.
- HookInstall.HookSite.Install: the trampoline is assumed to be a fresh allocation apart
  from the routine.
- HookedRoutines.HookCopied: states nothing for runs in which the displaced instructions
  write to the patched code or the trampoline; their pages are not writable.
- CodeMeaning.CookieIsApart: assumes that the sections of the image do not overlap, which
  the linker guarantees and the resolver does not check.
- CodeMeaning.ReferencesLoadTheTarget: covers the destination registers of the processor
  model; the scan accepts all sixteen.
- MenuGate.ValidateMenuGateVtable: the reasons for rejecting a vtable are not told apart,
  because the resolver skips the candidate for any of them.
- HookBundle.Resolve: which of several unmet requirements is reported first is not stated.
- HookBundle.SignaturePinsPrologue: the concrete signatures and known addresses are
  parameters; only the two copied prologues are spelled out.
- Parsing of the PE headers: the section list, its bounds and the image size are given.
- The menu-gate hook itself, its vtable patch, and the graphics-config observer.
- The eligibility rule over output and chain descriptions: its result is a parameter.
- The import-table walker, AGS and HDR-metadata observers, logging, text formatting,
  the INI file and the start-up thread.
