# stroopwafel, verified

Models and proofs for the stateful core of stroopwafel, a patcher for the Wii U's IOS firmware:
the byte search and the hook engine it patches with, the SD card redirection, the plugin
loader, the configuration reader, and the tools that build patches and images. `dafny verify
dfyconfig.toml` checks everything.

| file | models |
|---|---|
| `boyer_moore.dfy` | the byte search (`bm.c`) |
| `sha1_spec.dfy`, `sha1_bytes.dfy`, `sha1_padding.dfy`, `sha1.dfy` | FIPS 180-4, and the streaming implementation (`sha1.c`) that refines it |
| `branch.dfy`, `stubs.dfy` | branch encodings, and the hook stubs on a small ARM/Thumb interpreter |
| `windows.dfy`, `trampoline.dfy`, `chain_runs.dfy` | the windows onto the stub buffer and what a branch reaches through them, the engine that chains the stubs, and chains run on the interpreter |
| `ios_elf.dfy` | the IOS program header table in flat memory, with the notes behind it |
| `sd_protocol.dfy`, `sectors.dfy` | the locking around SD commands as interleaved steps, and the sector arithmetic |
| `ini.dfy`, `ini_lines.dfy`, `ini_dump.dfy`, `ini_reader.dfy`, `ini_parser.dfy` | the INI parser on values, what lines mean, the printer the parser undoes, the two line readers, and the parser in place |
| `salt_patch.dfy`, `patch_bytes.dfy` | the patch generator and reader, and the file byte by byte |
| `dynamic.dfy` | the plugin relocator and linker |
| `anpack.dfy`, `ancast.dfy` | the ELF writer and reader, and the chunked encryption of the image |
| `words.dfy`, `quotients.dfy` | fixed-width integers, and the division facts the others share |

Integers of the source are of their declared width: `U32` wraps through `Wrap32`, `Int32` is a
range every operation is proved to stay in, division is C's or Python's where they differ from
Dafny's. Loops and in-place updates of the source are loops and in-place updates here, each
proved against a function of its inputs; the lemmas are about those functions, and tell in terms
of bits, bytes or words of memory what they come to. `crash_and_burn`
is a missing next state (`None`, or `ok == false`).

## Where the code does less than one would think

Each of these is what the code does; the model follows it and proves exactly when the property
holds, or what happens instead.

- A 64 MiB window test does not put a stub in reach of a branch (`trampoline.c:64-97`):
  `Windows.MappedMayNotReach` has the addresses. `Windows.WindowReachExactly` says which windows
  that pass the test are in reach, by their place in the block, and
  `Windows.BufferReachedExactly` that a whole stub buffer is reached if and only if its first
  and its last place are. The chain theorem asks for those two only (`GoodSites`).
- The Thumb BL encoder keeps ten high bits where eleven are needed (`patch.h:39`), so only
  forward displacements under 4 MiB survive: `Branch.ThumbBranchRoundTrip`.
- `trampoline_t_blre_regs_proto` drops 4 bytes where 20 are saved (`trampoline_asm.S:153`). For
  every state it resumes at the saved r5 with the stack 16 bytes short:
  `Stubs.ThumbBlreRegsReturns`.
- Hooks on one address chain only if each installer decodes the branch the previous one left
  (`trampoline.c:118-179`): any hooks do at a BL; at a B only `trampoline_hook_before_v2`, which
  leaves a B there; at any other instruction only that one, or any hooks once
  `trampoline_hook_before` came first. `Trampoline.ChainsAfterAnyRun` is an equivalence.
  `Trampoline.BranchIsDisplaced` and `Trampoline.NullChain` are the runs that lose the chain: a B
  that ends up as the displaced instruction of a later stub, and a hook that is handed 0 as its
  original.
- Segment lookup includes the upper end (`ios_dynamic.c:17`), so "outside the new range" is
  outside the closed range.
- The comment over `sdcard_readwrite` says zero reads (`patch_asm.S:1459`); the code and its
  callers read on nonzero (`:1499-1500`, `:1782`, `:1835`).
- SLC banks are placed by whole pages: a bank offset that is not a multiple of four sectors is
  rounded down (`patch_asm.S:1816`), `Sectors.PageSectorsExactly`.
- The card patch drops the high word that the MLC wrappers have carried into
  (`patch_asm.S:1792`): `Sectors.MlcLandsExactly`. It tests `redmlc_size_sectors`, a zero word
  that nothing writes (`:1786`, `:1795-1797`), so that requests of the card itself go to the
  original function with MLC redirected, too.
- Patching an attach argument twice saves the wrapper as the real operation, and a read, a write
  or a sync is then inside a wrapper after any number of calls (`sal_partition.c:24-61`):
  `Sectors.Partition.AttachTwice`. `Sectors.EndsExactly` says when a call comes to an end.
- `ini_buffer_reader` delivers the lines of a text exactly when none has more than 199
  characters, and otherwise drops the 200th (`ini_buffer.c:51`); `fgets` exactly when none has
  more than 199 with its newline. The two agree under the second condition, and only then, on
  text without carriage returns: `IniReader.ReadersDeliverSameExactly`. `IniReader.FullLineParts`
  and `IniReader.ReturnParts` are texts for which the parser's results differ.
- The differ compares and copies beyond the end of a new file shorter than the old one
  (`salt-patch-src/main.c:219-239`). `SaltPatch.ShorterReadsOn` puts whatever is found there into
  the result; `SaltPatch.DiffPatchesExactly` is the equivalence.
- `sha1_hash` carries at most once into the high counter word: the count is right exactly when
  count plus length stay below 2^33, `Sha1Code.CountAfterExactly`.
- The good-suffix table holds up to twice the pattern's length, so its `int` entries suffice for
  every pattern of a length exactly up to 2^30, `BoyerMoore.Delta2FitsExactly`.
- The relocator adds the base exactly when the word was below it and the sum fits a word,
  `Dynamic.BumpedExactly`. A plugin linked at a base below its own offsets is not relocated.
- `wafel_link_plugin` walks one table, from whichever of DT_REL and DT_JMPREL comes last, for the
  sum of both sizes (`dynamic.c:245-254`). `Dynamic.LinkWalksBothExactly` says for which layouts
  that is both tables; in the section of `Dynamic.TableMissed` one is missed.
- `elf32_phdr.write` writes all of a segment's content whatever p_filesz says, and
  `insert_phdr` never inserts in front of the first header unless it finds nothing above the
  address elsewhere: `Anpack.ReadsBack` and `Anpack.InsertKeepsOrderExactly` are exact.

## Model

| member | source | states |
|---|---|---|
| BoyerMoore.MakeDelta1 | wafel_core/source/bm.c:19-28 | for every character, the distance from the pattern's end to its last place before the final character, or the whole length |
| BoyerMoore.IsPrefix | wafel_core/source/bm.c:32-43 | true exactly when the suffix at pos reappears at the beginning |
| BoyerMoore.SuffixLength | wafel_core/source/bm.c:47-54 | the result agrees backwards with the pattern's end, and the next character differs unless the beginning was reached |
| BoyerMoore.GoodShiftPastMismatch | wafel_core/source/bm.c:96-102 | a shift past the mismatch is good if and only if the suffix it leaves is a prefix: what the first loop tests is what a good shift is |
| BoyerMoore.GoodShiftWithinPattern | wafel_core/source/bm.c:105-110 | a shorter shift is good if and only if the backward comparison stops right there: what the second loop measures is what a good shift is |
| BoyerMoore.OnlyStopImproves | wafel_core/source/bm.c:105-110 | a turn of the second loop can improve no entry but the one it writes |
| BoyerMoore.MatchingStep | wafel_core/source/bm.c:105-110 | one turn of the second loop lowers, never raises, an entry and extends the minimality to one more shift |
| BoyerMoore.FirstLoop | wafel_core/source/bm.c:96-102 | after the first loop each entry stands for the least good shift that clears its position |
| BoyerMoore.SecondLoop | wafel_core/source/bm.c:104-110 | after the second loop each entry stands for the least good shift of all |
| BoyerMoore.MakeDelta2 | wafel_core/source/bm.c:91-111 | delta2[j] is patlen-1-j plus the least shift that agrees with the matched suffix and puts no equal character under j |
| BoyerMoore.OccurrenceIsGoodShift | wafel_core/source/bm.c:123-136 | after a mismatch, every occurrence further right is a good shift away |
| BoyerMoore.OccurrenceClearsBadCharacter | wafel_core/source/bm.c:123-136 | every occurrence further right moves the text's character to its last place in the pattern or past it |
| BoyerMoore.SkipIsSafe | wafel_core/source/bm.c:134-135 | the larger of the two entries passes no occurrence, makes progress and stays below textlen+patlen |
| BoyerMoore.BoyerMooreSearch | wafel_core/source/bm.c:113-138 | the leftmost occurrence, or none exactly when there is none, for every text and pattern in int range; it ends, and every index and int is in range |
| BoyerMoore.Delta2FitsExactly | wafel_core/source/bm.c:91-111 | the table's entries fit in int for all patterns of a length if and only if the length is at most 2^30 |
| Sha1Code.FastChIsCh | salt-patch-src/sha1.c:69 | the rewritten ch is the standard's Ch |
| Sha1Code.FastMajIsMaj | salt-patch-src/sha1.c:71 | the rewritten maj is the standard's Maj |
| Sha1Code.OneCycle | salt-patch-src/sha1.c:88-91 | with nothing moved, the registers read in rotated order are the standard's round |
| Sha1Spec.ScheduleByBit | salt-patch-src/sha1.c:113-123 | bit by bit, for every block and every t from 16 on: bit k+1 mod 32 of word t is the parity of the bits k of words t-3, t-8, t-14 and t-16 |
| Sha1Spec.RotationsByBit | salt-patch-src/sha1.c:88-91 | the rotations of the standard move bit k by 1, 5 and 30 places modulo 32 |
| Sha1Spec.ParityByBit | salt-patch-src/sha1.c:70 | a bit of parity is set exactly where an odd number of the three is |
| Sha1Spec.PlusIsSum | salt-patch-src/sha1.c:143-153 | the chaining values are added modulo 2^32 |
| Sha1Code.NextWord | salt-patch-src/sha1.c:113-123 | the sixteen-word buffer, shifted and written in place as the code does, yields the word of the eighty-word schedule |
| Sha1Code.FiveCycle | salt-patch-src/sha1.c:93-98 | five rounds bring the register names back to where they were |
| Sha1Code.EightyRounds | salt-patch-src/sha1.c:100-143 | the code's rounds are the eighty rounds of section 6.1.2 of FIPS 180-4, for every state and block |
| Sha1Code.Context.Compile | salt-patch-src/sha1.c:100-154 | the chaining value of section 6.1.2 of FIPS 180-4 |
| Sha1Code.BlockCompletes | salt-patch-src/sha1.c:177-183 | buffered bytes and a filled-up block, in word order, are the message's next block |
| Sha1Code.HeldBack | salt-patch-src/sha1.c:185 | less than a block more is only held back, behind what was held back before |
| Sha1Code.CountAfterExactly | salt-patch-src/sha1.c:174-175 | the two-word counter is the byte count modulo 2^64 if and only if low word plus length stay below 2^33 |
| Sha1Code.Context.Begin | salt-patch-src/sha1.c:156-164 | the context of the empty message |
| Sha1Code.Context.Hash | salt-patch-src/sha1.c:169-186 | the message absorbed so far grows by exactly the data |
| Sha1Code.Context.MarkEnd | salt-patch-src/sha1.c:196-203 | the used words and the one bit are the padded message's, with stale buffer bytes masked off, in either byte order |
| Sha1Code.Context.FinishBlock | salt-patch-src/sha1.c:217-226 | zeros, the length and a compilation complete the padded message |
| Sha1Code.Context.End | salt-patch-src/sha1.c:190-232 | the digest of everything absorbed, through both padding paths |
| Sha1Code.HashInChunks | salt-patch-src/sha1.c:234-238 | begin, any number of sha1_hash calls of any lengths, end: the SHA-1 of FIPS 180-4 of the concatenation, on hosts of either byte order |
| Branch.ArmBranchRoundTrip | wafel_core/include/wafel/patch.h:32-46 | decoding an encoded ARM B or BL gives the destination if and only if it is whole words away and within -2^25 up to 2^25 of the prefetched pc |
| Branch.EncodedParts | wafel_core/include/wafel/patch.h:32-46 | the opcode byte and the low 24 bits of the word offset stand side by side, so a branch is taken for its own kind only |
| Branch.MovedBranch | wafel_core/source/trampoline.c:21-29 | a branch word leads to the same place from one address only |
| Branch.ThumbDecodedOffset | wafel_core/source/trampoline.c:188-203 | what an encoded Thumb BL decodes to, for any destination: the low 21 bits of the halfword offset, never negative |
| Branch.ThumbBranchRoundTrip | wafel_core/include/wafel/patch.h:37-41 | from an even address, decoding gives the destination with the Thumb bit if and only if 0 <= displacement < 2^22 |
| Branch.TakenForThumbBl | wafel_core/source/trampoline.c:188-193 | two halfwords are taken for a BL if and only if the first is from 0xF000 up to 0xF7FF and the second from 0xF800 on |
| Words.TruncDivLeaves | wafel_core/include/wafel/patch.h:33 | the encoder's division leaves a remainder of the dividend's sign |
| Stubs.CallReturnsHere | wafel_core/source/trampoline_asm.S:8-14 | whatever a stub calls is called with lr at the item it goes on with, odd in Thumb code |
| Stubs.BlreCalls | wafel_core/source/trampoline_asm.S:8-13 | the hook gets the caller's registers, the original target and the caller's lr on the stack, and the stack above untouched |
| Stubs.BlreReturns | wafel_core/source/trampoline_asm.S:14 | back from the hook, control goes to what is then the second stack word with both words off the stack |
| Stubs.BlreRuns | wafel_core/source/trampoline_asm.S:8-14 | call, hook and return together: a hook that keeps its stack arguments returns to the caller, on the caller's stack |
| Stubs.BlreRegsCalls | wafel_core/source/trampoline_asm.S:29-34 | r4 to r12 in the lowest stack words, then the two words as before |
| Stubs.BlreRegsReturns | wafel_core/source/trampoline_asm.S:35-36 | everything the stub pushed is off the stack and control goes to the saved lr |
| Stubs.BlreRegsRuns | wafel_core/source/trampoline_asm.S:29-36 | the same for the form with registers |
| Stubs.HookBeforeCalls | wafel_core/source/trampoline_asm.S:71-75 | the hook gets a pointer to r0 to r12 and lr as the caller had them |
| Stubs.HookBeforeBlReturns | wafel_core/source/trampoline_asm.S:76-78 | registers and lr are the saved ones as the hook left them, sp is back, and control goes to the hooked BL's target |
| Stubs.HookBeforeReturns | wafel_core/source/trampoline_asm.S:76-80 | as above, then the displaced instruction runs on that state and control returns to lr |
| Stubs.HookBeforeV2Calls | wafel_core/source/trampoline_asm.S:95-99 | the same frame for the hook that decides |
| Stubs.HookBeforeV2Returns | wafel_core/source/trampoline_asm.S:100-105 | the displaced instruction runs if and only if the hook returned 0; control ends at the return address either way |
| Stubs.ThumbBlreCalls | wafel_core/source/trampoline_asm.S:119-126 | the ARM stub's contract, with r0 given back before the call |
| Stubs.ThumbBlreReturns | wafel_core/source/trampoline_asm.S:127-128 | both words come off the stack and control goes to the second |
| Stubs.ThumbBlreRuns | wafel_core/source/trampoline_asm.S:119-128 | call, hook and return together lead to the caller, on the caller's stack |
| Stubs.ThumbBlreRegsCalls | wafel_core/source/trampoline_asm.S:144-152 | r4 to r7 in the lowest stack words, then target and lr |
| Stubs.ThumbBlreRegsReturns | wafel_core/source/trampoline_asm.S:153-154 | the imbalance: for every state, pc is the saved r5 and sp 16 bytes short |
| Stubs.ThumbBlreRegsRuns | wafel_core/source/trampoline_asm.S:144-154 | call, hook and return together lead to the address that is the caller's own r5, 16 bytes below the caller's stack |
| Stubs.ThumbHookBeforeCalls | wafel_core/source/trampoline_asm.S:170-174 | the hook gets a pointer to r0 to r7 and lr |
| Stubs.ThumbHookBeforeReturns | wafel_core/source/trampoline_asm.S:175-182 | r0 to r7, lr and sp come from the frame, the two displaced halfwords run, control returns to lr |
| Stubs.ThumbHookBeforeRuns | wafel_core/source/trampoline_asm.S:170-182 | a hook that leaves the saved state alone is followed by the two displaced halfwords on the caller's r0 to r7, sp and lr |
| Stubs.ThumbHookBeforeBlCalls | wafel_core/source/trampoline_asm.S:196-200 | the same frame |
| Stubs.ThumbHookBeforeBlReturns | wafel_core/source/trampoline_asm.S:201-205 | r0 to r7, lr and sp come from the frame and control goes to the hooked BL's target |
| Stubs.ThumbHookBeforeBlRuns | wafel_core/source/trampoline_asm.S:196-205 | such a hook is followed by the hooked BL's target with the caller's r0 to r7, sp and lr |
| Windows.AlignIsLeastMultiple | wafel_core/source/trampoline.c:11-13 | the least multiple not below x if and only if that is a word, and x is not 0 or the alignment divides 2^32 |
| Windows.MappedMayNotReach | wafel_core/source/trampoline.c:64-97 | a window the search accepts and a branch cannot reach |
| Windows.WindowReachExactly | wafel_core/source/trampoline.c:64-97 | an accepted window is in reach if and only if it is whole words away and, by place in the block, within -2^25 up to 2^25 of the prefetched pc |
| Windows.BufferReachedExactly | wafel_core/source/trampoline.c:64-111 | all word-aligned places of the buffer are reached from an address if and only if the first and the last are |
| Trampoline.InstalledFacts | wafel_core/source/trampoline.c:49-62 | a stub put at or behind the buffer pointer and before the new one, seen by the branch through some window, with everything else in memory as it was |
| Trampoline.StubForHooked | wafel_core/source/trampoline.c:118-179 | where the chain can go on, the installer takes the branch the previous one left as its chain, or ends the chain with the displaced instruction |
| Trampoline.ApplyExtends | wafel_core/source/trampoline.c:106-179 | where the chain can go on, a call puts its hook in front of it |
| Trampoline.ApplySpoils | wafel_core/source/trampoline.c:106-179 | where it cannot, a call leaves a BL into the buffer that no chain of the hooks starts with |
| Trampoline.SpoiledIsNotHooked | wafel_core/source/trampoline.c:106-179 | and with such a BL following the branch does not visit the hooks |
| Trampoline.ApplyKeepsOthers | wafel_core/source/trampoline.c:49-62 | a call changes no chain at another address |
| Trampoline.BranchIsDisplaced | wafel_core/source/trampoline.c:141-179 | hook_before after hook_before_v2 on a plain instruction: the B to the first stub is stored as displaced instruction, from where it does not lead there, and the chain is lost |
| Trampoline.NullChain | wafel_core/source/trampoline.c:118-133 | blreplace on anything but a BL hands its hook a null original |
| Trampoline.UsualSite | wafel_core/source/trampoline.c:64-97 | what the chain theorem asks of windows and reach can be met: a plugin area, a buffer in it, a BL in the MCP block, and a first call that succeeds |
| Trampoline.ChainsAfterAnyRun | README.md:89 | after any run of calls on any of the addresses, following the branch at each visits its hooks newest to oldest and ends as the address did, if and only if it held a BL, or all its hooks are hook_before_v2, or it held no B and the first was hook_before |
| ChainRuns.OneStubRuns | wafel_core/source/trampoline_asm.S:71-105 | on the processor a hook_before stub of either version calls its hook and goes on to its chain with the registers it was entered with |
| ChainRuns.EndStubRuns | wafel_core/source/trampoline_asm.S:71-105 | a last stub calls its hook and runs the displaced instruction with the registers it was entered with, in the second version exactly when the hook answered 0 |
| ChainRuns.HookChainRuns | README.md:89 | entered through the hooked address, the processor calls all hooks newest to oldest and arrives at the original target, or the displaced instruction, with the caller's registers |
| Trampoline.Engine.Copy | wafel_core/source/trampoline.c:49-62 | the prototype's words at the aligned buffer pointer, which moves behind them; refused exactly when the end would reach the buffer's |
| Trampoline.Engine.FindWindow | wafel_core/source/trampoline.c:64-97 | the first of the seven windows in the address's 64 MiB block |
| Trampoline.Engine.Install | wafel_core/source/trampoline.c:99-111 | copy, window search and branch patch are one step of the abstract engine |
| Trampoline.Engine.BlReplace | wafel_core/source/trampoline.c:118-122 | refines the abstract step through the shared prototype's words |
| Trampoline.Engine.BlReplaceWithRegs | wafel_core/source/trampoline.c:129-133 | refines the abstract step |
| Trampoline.Engine.HookBefore | wafel_core/source/trampoline.c:141-153 | refines the abstract step: of the copy, not the prototype, one word is rewritten |
| Trampoline.Engine.HookBeforeV2 | wafel_core/source/trampoline.c:161-179 | refines the abstract step, for BL, B and any other instruction |
| Trampoline.Engine.PerformAll | wafel_core/source/trampoline.c:118-179 | any run of calls refines the abstract run, up to the first that does not fit |
| IosElf.TranslateFirstMatch | wafel_core/source/ios_dynamic.c:10-27 | the first covering segment from ELFINFO on decides; without one an address is itself |
| IosElf.ElfInfoBumpExactly | wafel_core/source/ios_dynamic.c:46-49 | the size update meant for ELFINFO reaches it exactly when the new header goes in above it |
| IosElf.InsertKeepsTranslation | wafel_core/source/ios_dynamic.c:29-54 | once the slot is filled, addresses outside its range translate as before |
| IosElf.InsertTakesEffect | wafel_core/source/ios_dynamic.c:29-54 | addresses in its range, unless an earlier segment has them, translate as the new header says |
| IosElf.RunKeepsTranslation | wafel_core/source/ios_dynamic.c:29-54 | the same over any run of insertions |
| IosElf.EntrypointUnique | wafel_core/source/ios_dynamic.c:63-79 | the entry point is a function of the notes and the uid, so kept notes mean kept answers |
| IosElf.SlotOpened | wafel_core/source/ios_dynamic.c:42-46 | the two overlapping memmoves open a slot, keep the notes' bytes and keep the old headers in order |
| IosElf.AddMeaning | wafel_core/source/ios_dynamic.c:29-54 | on bytes: table with one header more, all old headers in order but for the size updates, the same notes directly behind it |
| IosElf.HeaderRegion.VaddrToPaddr | wafel_core/source/ios_dynamic.c:10-27 | the loop over the headers in memory is the translation |
| IosElf.HeaderRegion.AddPhdr | wafel_core/source/ios_dynamic.c:29-54 | refines the abstract insertion, with the notes kept byte for byte and contiguous |
| IosElf.HeaderRegion.InsertRun | wafel_core/source/ios_dynamic.c:29-54 | any run of insertions that fits refines the abstract run and keeps the notes |
| IosElf.HeaderRegion.GetModuleEntrypoint | wafel_core/source/ios_dynamic.c:63-79 | the first entry point listed under the uid, or 0 if there is none |
| SdProtocol.InvInitial | wafel_core/source/patch_asm.S:1435-1440 | the invariant holds once the card mutex exists |
| SdProtocol.InvTakeMutex | wafel_core/source/patch_asm.S:1473-1477 | taking the card mutex keeps it: nobody else holds it |
| SdProtocol.InvAccept | wafel_core/source/patch_asm.S:1519-1522 | handing a command to the driver keeps it: no other command is in flight |
| SdProtocol.InvStore | wafel_core/source/patch_asm.S:1547-1548 | the callback's store keeps it: it goes to the live frame of the command's owner |
| SdProtocol.InvSignal | wafel_core/source/patch_asm.S:1549-1550 | the callback's signal keeps it: the semaphore it raises exists, before the owner waits or after |
| SdProtocol.InvStep | wafel_core/source/patch_asm.S:1460-1550 | every step of every thread and of the driver keeps it |
| SdProtocol.SafeInEveryRun | wafel_core/source/patch_asm.S:1460-1550 | in every interleaving of any number of threads: one command in flight at most, owned by a thread still in its frame, one mutex holder at most, the mutex free exactly when nobody is inside, and every accepted request returned what its own callback stored |
| SdProtocol.LogOnlyGrows | wafel_core/source/patch_asm.S:1547-1550 | what a callback stored for a request is never stored again |
| SdProtocol.NeverStuck | wafel_core/source/patch_asm.S:1524-1539 | no wakeup is lost: while any thread is inside a request something other than a new request can happen |
| SdProtocol.HolderGoesOn | wafel_core/source/patch_asm.S:1534-1539 | with no command in flight the mutex's holder can itself go on to release it, refused commands included |
| SdProtocol.StartsAreCounted | wafel_core/source/patch_asm.S:1460-1550 | the requests of a run are its starts |
| SdProtocol.RunsAreBounded | wafel_core/source/patch_asm.S:1460-1550 | whatever the scheduler does, n requests take 11n steps at most |
| Sectors.AdjustBlockSize | wafel_core/source/patch_asm.S:1489-1494 | the halving loop ends for every block size, with size halved and count and offset doubled as often |
| Sectors.OneSectorExactly | wafel_core/source/patch_asm.S:1489-1494 | one whole sector comes out exactly for 512 times a power of two |
| Sectors.BytesConserved | wafel_core/source/patch_asm.S:1489-1494 | bytes asked for are bytes transferred, from the same byte position |
| Sectors.SdcardReadWrite | wafel_core/source/patch_asm.S:1489-1510 | the command the driver gets: adjusted extent, type 3 exactly for a nonzero first argument and 0 for zero, high offset zero |
| Sectors.SlcReadWrite | wafel_core/source/patch_asm.S:1808-1854 | redirected exactly when the selected bank has a size, and then, for pages, with the count and offset that LandsAtOffset is about, a read exactly for a nonzero argument |
| Sectors.SdReadWrite | wafel_core/source/patch_asm.S:1777-1797 | left to the original function exactly for the card itself with redmlc_size_sectors zero; otherwise the command for the low word |
| Sectors.MlcReadWrite | wafel_core/source/rednand/sal_partition.c:24-34 | wrapper and card patch together: first block and count that arrive are those that MlcLandsExactly and LandsAtOffset are about, and a command is a read exactly for a nonzero argument |
| Sectors.MlcLandsExactly | wafel_core/source/patch_asm.S:1786-1793 | MLC block n lands on offset+n if and only if the original function gets it or offset+n is below 2^32 |
| Sectors.PageSectorsExactly | wafel_core/source/patch_asm.S:1808-1818 | SLC page p lands on off+4p and the three sectors behind it if and only if off is a multiple of four |
| Sectors.AddOffsetCarries | wafel_core/source/rednand/sal_partition.c:17-22 | the 64-bit sum, with the carry in the high word |
| Sectors.LandsAtOffset | wafel_core/source/patch_asm.S:1650-1662 | a fitting request of any store starts at its store's offset plus its own position, by the code's own wrapping and truncating arithmetic |
| Sectors.StoresNeverShareASector | wafel_core/source/patch_asm.S:1808-1818 | on disjoint regions no request leaves its region, so no sector serves two stores |
| Sectors.DifferentPagesDifferentSectors | wafel_core/source/patch_asm.S:1808-1818 | and within a store different pages or blocks share none |
| Sectors.ApartExactly | wafel_core/source/rednand/sal_partition.c:9-22 | regions are apart if and only if no sector is in both |
| Sectors.Partition.PatchAttachArg | wafel_core/source/rednand/sal_partition.c:53-65 | the real operations are saved, wrappers and the partition's size take their place |
| Sectors.StillInside | wafel_core/source/rednand/sal_partition.c:24-40 | with a wrapper saved as the real operation, after any number of calls another is under way |
| Sectors.EndsExactly | wafel_core/source/rednand/sal_partition.c:24-40 | a call of the wrapper ends if and only if what was saved is not the wrapper, and a real operation is then reached at the moved address |
| Sectors.Partition.Attach | wafel_core/source/rednand/sal_partition.c:24-65 | read, write and sync of an attached device end if and only if the argument held no wrapper for them |
| Sectors.Partition.AttachTwice | wafel_core/source/rednand/sal_partition.c:24-65 | attached twice, read, write and sync are inside a wrapper after any number of calls |
| Ini.TrimmedParts | wafel_core/source/externals/inih/ini.c:28-42 | stripping both ends, in either order, leaves no whitespace at either |
| Ini.FeedCalls | wafel_core/source/externals/inih/ini.c:106-168 | a line makes one handler call at most, with a trimmed value |
| Ini.ValuesAreTrimmed | wafel_core/source/externals/inih/ini.c:152-161 | every value the handler ever gets is without whitespace at its ends, for all input |
| Ini.ErrorIsFirstBadLine | wafel_core/source/externals/inih/ini.c:73-181 | the result is 0 if and only if no line is bad, and otherwise the number of the first bad one |
| Ini.NewlineIsStripped | wafel_core/source/externals/inih/ini.c:117 | a newline left at the end of a line changes nothing |
| IniLines.SpaceExactly | wafel_core/source/externals/inih/ini.c:28-42 | whitespace is the blank and the characters 9 to 13 |
| IniLines.TextReadsExactly | wafel_core/source/externals/inih/ini.c:118-168 | a stripped text is taken for a comment, a continuation, a section, a pair or none of them if and only if it is made up like one |
| IniLines.LineReadsExactly | wafel_core/source/externals/inih/ini.c:106-168 | the same for a line, with a byte order mark on the first and whitespace around the text |
| IniLines.FeedExactly | wafel_core/source/externals/inih/ini.c:106-168 | the state behind a line is the one that the line, by what it reads as, makes of the state before: section and name cut to 49 characters, the one call, the error number |
| IniLines.ParsesExactly | wafel_core/source/externals/inih/ini.c:73-181 | for all lines: the parse is the run of states that the lines make, each of the one before, and there is no other |
| IniLines.ContinuationLine | wafel_core/source/externals/inih/ini.c:124-129 | whitespace and a text that is no comment, behind a name: the handler is called with section, that name and the text, and the line is flagged exactly if it refuses |
| IniLines.PairLine | wafel_core/source/externals/inih/ini.c:144-163 | name, "=" or ":", value, whitespace or none between them and perhaps an inline comment: the handler is called with section, name and value, without the comment |
| IniLines.ContinuationInFile | wafel_core/source/externals/inih/ini.c:124-129 | anywhere in a file a continuation line's call is made right behind those of the lines before it |
| IniDump.Dumper.Dump | wafel_core/source/externals/inih/examples/ini_dump.c:7-19 | the printed text is that of the entries so far, through the static section buffer |
| IniDump.FeedPair | wafel_core/source/externals/inih/ini.c:144-163 | a printed pair is parsed into its name and value, empty values included |
| IniDump.FeedSection | wafel_core/source/externals/inih/ini.c:131-138 | a printed section line sets the section, the empty one included |
| IniDump.ParseOfDump | wafel_core/source/externals/inih/examples/ini_dump.c:12-17 | parsing printed lines makes exactly the printed calls in order, with result 0 |
| IniReader.BufferLinesExactly | wafel_core/source/externals/inih/examples/ini_buffer.c:25-61 | on text without carriage returns the in-memory reader delivers the text's lines if and only if none is longer than 199 characters |
| IniReader.FgetsLinesExactly | wafel_core/source/externals/inih/ini.c:184-187 | fgets delivers them with their newlines if and only if none is then longer than 199 |
| IniReader.ReadersDeliverSameExactly | wafel_core/source/externals/inih/examples/ini_buffer.c:25-61 | the two deliver the same but for the newline under exactly the second condition |
| IniReader.ReadersAgree | wafel_core/source/externals/inih/examples/ini_buffer.c:25-61 | under that condition the parser makes the same calls and returns the same through either reader |
| IniReader.LongLineDropsCharacter | wafel_core/source/externals/inih/examples/ini_buffer.c:48-52 | a line that fills the buffer loses the character behind it |
| IniReader.FullLineParts | wafel_core/source/externals/inih/examples/ini_buffer.c:48-52 | a comment of 199 characters and a bad line: the parser reports line 2 through one reader and line 3 through the other |
| IniReader.ReturnParts | wafel_core/source/externals/inih/examples/ini_buffer.c:41-52 | a carriage return within a comment: an error through one reader, none through the other |
| IniReader.DumpRoundTrip | wafel_core/source/externals/inih/examples/ini_dump.c:7-19 | printed text read back by either reader gives every entry and result 0 |
| IniParser.RStripAt | wafel_core/source/externals/inih/ini.c:28-34 | in place, the string loses its trailing whitespace and nothing outside changes |
| IniParser.LSkipAt | wafel_core/source/externals/inih/ini.c:37-42 | the pointer to the first character that is not whitespace |
| IniParser.FindAt | wafel_core/source/externals/inih/ini.c:47-62 | the first stop character or inline comment, or the end |
| IniParser.ParseLine | wafel_core/source/externals/inih/ini.c:106-168 | the loop body, over the buffer it overwrites, makes of the state what the line means |
| IniParser.Stream.ReadBuffer | wafel_core/source/externals/inih/examples/ini_buffer.c:25-61 | the buffer is filled with the next line; pointer and count move on, the count possibly below zero |
| IniParser.ParseStream | wafel_core/source/externals/inih/ini.c:73-181 | calls and result of the whole parse, in one buffer and from either reader, are those at the end of the run of states that the lines read make |
| IniParser.DumpThenParse | wafel_core/source/externals/inih/examples/ini_dump.c:7-19 | printer then parser, each in its imperative form, give back the entries and 0 |
| SaltPatch.Spans | salt-patch-src/main.c:218-235 | the runs are maximal, ascending and apart, and all flags in them are set: every copied word differs |
| SaltPatch.CutsTile | salt-patch-src/main.c:160-184 | the runs of zero and nonzero words leave nothing out, and each is as long as it can be |
| SaltPatch.DiffPatches | salt-patch-src/main.c:190-244 | applying a diff to memory with the old version gives the new one, padded to words, and touches nothing beyond |
| SaltPatch.ShorterReadsOn | salt-patch-src/main.c:219-239 | of a shorter new version the result has, right behind it, what the memory behind the new version's buffer held |
| SaltPatch.DiffPatchesExactly | salt-patch-src/main.c:190-244 | the diff gives the new version whatever that memory held if and only if the new version is not shorter |
| SaltPatch.FullChunksRebuild | salt-patch-src/main.c:143-188 | a whole file's chunks rebuild it over any prior memory |
| SaltPatch.PaddedBytes | salt-patch-src/main.c:148-158 | the words of the buffer, laid out byte by byte, are the file's bytes and zeros to a multiple of four |
| SaltPatch.FileLeft | salt-patch-src/main.c:143-188 | over any memory, the chunks of a whole file leave exactly its bytes, zero-padded, and the bytes behind as they were |
| SaltPatch.PatchLeft | salt-patch-src/main.c:190-244 | over memory with the bytes of the old version, the chunks of a difference leave exactly those of the new one, zero-padded |
| SaltPatch.PatchFile.constructor | salt-patch-src/main.c:83-91 | a new file is a header with no chunks |
| SaltPatch.PatchFile.AddDiff | salt-patch-src/main.c:122-131 | the file is that of one data chunk more |
| SaltPatch.PatchFile.AddMemset | salt-patch-src/main.c:133-141 | the file is that of one fill chunk more |
| SaltPatch.PatchFile.DiffToFile | salt-patch-src/main.c:190-244 | for versions of any lengths the loops emit exactly the maximal differing runs and the tail; they read the new version in range if and only if it is not shorter, and then what they emit leaves its bytes over those of the old one |
| SaltPatch.PatchFile.AddToFile | salt-patch-src/main.c:143-188 | the loops emit exactly the alternating zero and data runs, which leave the file's bytes in any memory |
| SaltPatch.PatchFile.Finish | salt-patch-src/main.c:93-120 | end mark added, and the SHA-1 of the file before it stored in its header |
| SaltPatch.Digest | salt-patch-src/main.c:101-115 | hashing the file in 0x2000-byte pieces gives its SHA-1 |
| SaltPatch.DigestChecks | salt-patch-src/main.c:70-74 | the stored digest is the SHA-1 of the file with its digest field zeroed |
| SaltPatch.ReadsBack | salt-patch-src/main.c:292-316 | walking written chunks lists exactly them and the end mark, and stops at the file's end |
| SaltPatch.FinishedReadsBack | salt-patch-src/main.c:246-319 | a finished file passes the header checks and lists exactly its chunks and the end mark |
| PatchBytes.FinishedBytes | salt-patch-src/main.c:70-141 | a finished file byte by byte: "SALTPTCH", the version, the SHA-1 of the file in which those 20 bytes are zero, the chunks with their big-endian words, and the end mark |
| PatchBytes.FileReadsBack | salt-patch-src/main.c:246-319 | reading those bytes lists exactly the chunks and the end mark |
| SaltPatch.PatchRead | salt-patch-src/main.c:246-319 | over a file of any size that its 32-bit cursor spans the reader's loop is the abstract walk over the whole words |
| Dynamic.IndexExactly | wafel_core/source/dynamic.c:52-69 | memory by words: an address is in word w exactly if, modulo 2^32, it is one of the four from 4w on |
| Dynamic.BumpedExactly | wafel_core/source/dynamic.c:59-66 | through any number of entries for one word the base is added exactly once if and only if the word was below it and the sum fits |
| Dynamic.RelocatedWord | wafel_core/source/dynamic.c:52-69 | word by word: only slots change, by the number of their entries, whatever their order |
| Dynamic.RelocatesOnce | wafel_core/source/dynamic.c:32-75 | the first run sets the flag, treats the slots and changes no other word |
| Dynamic.SlotGetsBaseOnce | wafel_core/source/dynamic.c:59-66 | after the first run a slot with any number of entries holds its old value plus the base if and only if that value was below the base and the sum fits |
| Dynamic.RelocatedByWords | wafel_core/source/dynamic.c:52-69 | told by the words of the table: what an entry of type 23 is about holds the base added once under that condition, any other word but the flag is as before |
| Dynamic.RelocatesOnlyOnce | wafel_core/source/dynamic.c:37 | running again changes nothing |
| Dynamic.FirstDefinition | wafel_core/source/dynamic.c:169-177 | the address comes from the first table entry with the name and a value, 0 without one |
| Dynamic.FirstPluginWins | wafel_core/source/dynamic.c:180-191 | an exported name keeps its address when further plugins are registered |
| Dynamic.LinkedWord | wafel_core/source/dynamic.c:264-293 | word by word: a slot ends with what its last entry resolves to in the memory before linking, other words are unchanged |
| Dynamic.LinkFillsSlots | wafel_core/source/dynamic.c:224-294 | symbol slots get the plugin's own definition, or for undefined symbols the first registered plugin's |
| Dynamic.FirstExport | wafel_core/source/dynamic.c:180-191 | the address found for a name is that of the first plugin in order of registration that defines it, 0 if none does |
| Dynamic.SlotFilled | wafel_core/source/dynamic.c:264-293 | told by the words in memory: a slot whose last entry has type 2, 21 or 22 ends with the first registered definition if st_shndx is 0 and the index is not, and otherwise with the base plus st_value, or 0 when that is 0 |
| Dynamic.OthersKept | wafel_core/source/dynamic.c:264-293 | words that no entry of these types is about stay as they are |
| Dynamic.RelocateLinkCommute | wafel_core/source/dynamic.c:32-294 | relocating and linking give the same memory in either order |
| Dynamic.LinkWalksBothExactly | wafel_core/source/dynamic.c:245-254 | the single walk is over the entries of both relocation tables if and only if the table it starts at lies right before the other |
| Dynamic.WalkReadsBoth | wafel_core/source/dynamic.c:264-268 | such a walk reads the first table's entries and then the second's |
| Dynamic.TableMissed | wafel_core/source/dynamic.c:245-254 | a section whose PLT table lies behind the other: the first table is not walked |
| Dynamic.Loader.Relocate | wafel_core/source/dynamic.c:32-75 | both loops together have exactly the modelled effect |
| Dynamic.Loader.GetPluginDynamic | wafel_core/source/dynamic.c:96-109 | the first dynamic segment of a plugin with the magic, else null |
| Dynamic.Loader.GetSymbolAddr | wafel_core/source/dynamic.c:137-178 | scan of the dynamic section and of the symbols up to the texts |
| Dynamic.Loader.FindSymbol | wafel_core/source/dynamic.c:180-191 | the first export in order of registration |
| Dynamic.Loader.FindSymbolMultiple | wafel_core/source/dynamic.c:193-208 | the export that skip others come before, 0 if there are not so many |
| Dynamic.Loader.RegisterPlugin | wafel_core/source/dynamic.c:218-222 | of every name: exported before, it keeps its address; otherwise it has the new plugin's, if that defines it |
| Dynamic.ApartLookupsEnd | wafel_core/source/dynamic.c:137-191 | where the tables are no slots themselves every lookup while linking ends |
| Dynamic.Loader.LinkPlugin | wafel_core/source/dynamic.c:224-294 | both loops together, lookups included, have exactly the modelled effect, slots in tables included, as long as the lookups end |
| Anpack.PackRoundTrip | scripts/anpack.py:7-28 | struct.unpack undoes struct.pack for every format and all values that fit |
| Anpack.FieldBytes | scripts/anpack.py:7-28 | fields of two and four bytes, the most significant byte first, hold values below 2^16 and 2^32 |
| Anpack.SegmentsDisjoint | scripts/anpack.py:105-120 | contents lie behind the header table, each behind the one before |
| Anpack.SegmentStays | scripts/anpack.py:105-120 | no later write touches a header or content already written |
| Anpack.ReadsBack | scripts/anpack.py:46-120 | reading back gives the ELF header, all program headers as laid out, and a segment's content if and only if p_filesz is its length, or more at the end of the file |
| Anpack.ReadElf | scripts/anpack.py:100-103 | the reading loop delivers every header and content, or fails exactly when one is cut short |
| Anpack.Elf.Write | scripts/anpack.py:105-120 | the file and the headers are those of the layout |
| Anpack.Elf.InsertPhdr | scripts/anpack.py:146-157 | a blank header in front of the first, other than the very first, that lies above the address, else in front of all |
| Anpack.InsertKeepsOrderExactly | scripts/anpack.py:146-157 | exactly when the table stays in ascending order |
| Ancast.XorByBit | scripts/anpack.py:255-262 | a bit of the combination is set exactly where those of the operands differ |
| Ancast.SameBits | scripts/anpack.py:255-262 | numbers with the same bits are the same, so the bits say which block is enciphered |
| Ancast.CbcBlock | scripts/anpack.py:255-262 | the defining equations of cipher block chaining, section 6.2 of NIST SP 800-38A: ciphertext block j is the cipher of the block whose set bits are those in which plaintext block j and ciphertext block j-1, or the vector, differ |
| Ancast.CbcAppend | scripts/anpack.py:254-265 | a pass cut at a block boundary goes on with the last ciphertext block as its vector |
| Ancast.CbcDecrypts | scripts/anpack.py:248-268 | whatever inverts the block function decrypts the body |
| Ancast.Encrypt | scripts/anpack.py:248-268 | the 0x4000-byte chunks with the carried vector are one pass over the body for any block function, and what is hashed is what is stored |
| Ancast.Ancast.Write | scripts/anpack.py:179-193 | whole pages of padded or encrypted body, with their size and the digest of exactly the stored body in the header area |

## Left out

- The firmware patch lists and the installation of the hai and rednand hooks: constants applied in order.
- FSA, MCP, socket, ifmgr, wupserver and IPC command handling, cpdir and rmdir: services that cannot be seen.
- Cache, MMU, GPIO, serial, IRQ and timer code; cache flushes are no-ops here.
- Screen, font and debug output; printed listings are modelled as the events they print.
- The scfm migration path (compiled out), redseeprom, PRSH lookup, rednand_init, virt_to_phys.
- The Thumb installers and `trampoline_hookafter_proto`: the Thumb stubs and the Thumb encoding are modelled, their installation is not. `trampoline_t_hook_before` chooses between two stubs and writes the displaced halfwords into the shared prototype, the patched BL may straddle two words, and backward targets are lost to the encoder (`Branch.ThumbBranchRoundTrip`).
- SdProtocol.SafeInEveryRun: semaphore handles, command data and the driver's internals are not modelled; the driver may accept or refuse, and calls back once for what it accepted.
- Trampoline.ChainsAfterAnyRun: memory is by the word, a stub word being an instruction of the interpreter or a literal; asks that the buffer lies in one 64 MiB block that every window shows, that its ends are in reach of the hooked addresses, and that these are distinct places.
- Stubs.HookBeforeReturns: the displaced instruction is any function on the processor state; what it would do relative to a different pc is not modelled.
- Sha1Code.Context.Hash: asks that the carry into the high counter word is at most one, which holds for every call under 2^32 bytes.
- IniParser.ParseStream: the section and previous-name buffers are strings cut to their size; the handler's answer may depend on all earlier calls.
- IniReader.ReadersDeliverSameExactly: the condition is for text without carriage returns, which only one of the readers takes for line ends (`IniReader.ReturnParts`).
- SaltPatch.PatchRead: words beyond the file's buffer, which a cut-off chunk or a file of fewer than three words makes the reader look at, are given as a parameter; files beyond 12 GiB less 5 bytes, which the 32-bit cursor does not span, are left out.
- SaltPatch.FinishedReadsBack: asks for chunks under 4 GiB, the range of the length field.
- Dynamic.Loader.LinkPlugin: a lookup that linking itself keeps from ending, by writing into a dynamic section or a string, is excluded, as is a section without a null tag; texts are constants by address; reads and writes are of aligned words.
- Dynamic.Loader.Relocate: a dynamic section without a null tag, over which the code runs on, is excluded.
- Anpack.ReadsBack: asks for room for the ELF header before the table, entries of at least 32 bytes and fields that struct.pack accepts; the special segments 0 and 2 have no content of their own.
- Ancast.Ancast.Write: AES and SHA-1 are any block function and any digest function; an image of 4 GiB or more, at which struct.pack raises, is not told apart.
- Allocation failures, failed opens and short reads of files that the tools report and give up on.
