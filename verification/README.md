# WireGuard on the Commodore 64: a verified model of the host-side tools

The repository's tools run on the host. They interpret 6502 code, assemble small
machine-code loops, judge packet captures, check the C64's cryptography against
reference code, stand in for a WireGuard peer, type on the C64's keyboard and run the
test suites. This project models the parts of them that carry state, arithmetic or a
protocol, and proves what they promise for every input and every run.

`dafny verify dfyconfig.toml` checks everything.

## The parts

**The 6502 interpreter.** `Mos6502Spec` gives one instruction as a function on machine
states: decoding, every addressing mode, every operation, every way to raise, and a
memory-mapped device whose answers may depend on the registers, the cycle count, the
memory and everything that happened at the device before. `Mos6502Machine` is the
mutable interpreter (registers, flags and a 64 KiB array updated in place); each of its
methods makes exactly that transition. `Mos6502Runs` is about runs of any length and
about `call`. `Mos6502Laws` shows that carry chains of ADC and SBC are integer
arithmetic, and `Mos6502Arithmetic` that programs which load, add or subtract, and store
n bytes compute it in memory. `Mos6502Stack` is about runs whose pushes and pulls nest:
whatever they execute in between, they give back the stack.

**Machine code.** `LoopStub` and `SweepTrampoline` are the bytes two tools emit, and the
theorems are about stepping those bytes on the interpreter. `Mos6502Steps` is the step
each of their instructions takes in any state. A device may be attached anywhere off the
code, the routine called is arbitrary as long as it returns as the hypothesis says, and
for each theorem one concrete memory image is run from start to end with nothing assumed.

**Packet evidence.** `Packets` decodes frames, `Reassembly` puts IPv4 fragments together
(section 3.2 of RFC 791), `ByteSearch` is the byte search with its pruned binary search,
`LeakSearch` the verdict that no plaintext is on the wire, `FragmentLoss` which payload
bytes reassembly keeps, `WireLeaks` what the verdict means for the recorded bytes,
`WireAbsence` the smaller searcher with its positive control, `EchoPairs` the pairing of
ICMP echoes.

**Reference cryptography.** `ChaCha20` and `Poly1305` (with the AEAD) follow section 2 of
RFC 8439; `X25519` is the deferred-swap Montgomery ladder of section 5 of RFC 7748.
`Bits` and `Bytes` hold Python's bitwise operators and its byte-string conversions.

**Protocols over whole runs.** `Responder` and `Server` are the WireGuard responder under
the greatest-timestamp rule of section 5.4.2 of the WireGuard whitepaper; the Noise
library is an oracle whose answers are parameters. `Keyboard` is the KERNAL keyboard
queue shared with a C64 that removes keys whenever it likes. `Gate` is the regression
gate: a bounded pool, serial suites and an exit code, with processes and the clock as
oracles.

## Where the code and its promises differ

- A rejected initiation is documented to change nothing. The code has one rejection that
  does: the assertion on the response's size comes after the new session is committed, so a
  Noise reply that is not 48 bytes is committed and then raised on.
  `Responder.RejectedChangesNothing` states it both ways, and `Responder.ShortReplyCommits`
  is a handshake with a 47-byte reply. With a Noise library that follows its own pattern the
  case is unreachable: message 2 with an empty payload always has 48 bytes.
- "No named plaintext appears anywhere in the capture" is more than the search can say. It
  looks at reassembled datagrams and at what frames hold beyond them. Whether it comes across
  given bytes of a record is decided exactly by `WireLeaks.SeenIff`, and for payloads by
  `FragmentLoss.AllSeenIff`, whose condition can be checked on the frames beforehand. Each way
  to escape it has an input on which the whole check passes over the text: an Ethernet header
  (`WireLeaks.HeaderPasses`), the end of an IP packet (`StraddlePasses`), payload that another
  fragment overwrites (`OverlapPasses`), and the padding of an 802.1Q frame (`TaggedPasses`),
  whose length the pad search reads at the untagged offset.
- ChaCha20 encryption needs no bound on the counter to be its own inverse or to split at
  block boundaries: the reference code never reduces the counter, so the laws are proved
  for every counter.
- In `X25519` the x-only group law of the textbook formulas is a hypothesis about an
  abstract group; that the source's own products compute those formulas is proved, so a
  wrong constant in them leaves nothing provable. For a point whose x is 0 mod p that
  hypothesis is not available, and the result is proved directly: all zero.

## Model

| member | source | states |
|---|---|---|
| Mos6502Spec.Step | tools/uci/mos6502.py:209-219 | a completed instruction keeps registers, flags and memory in range, costs at least two cycles, counts once, and only appends to the device history; one that raises leaves a machine in range too, its cycles not run back and its history not rewritten |
| Mos6502Spec.Addr | tools/uci/mos6502.py:222-272 | every addressing mode that does not raise gives a 16-bit address and moves only pc, the cycle count and the device history |
| Mos6502Machine.Mos6502.constructor | tools/uci/mos6502.py:131-148 | a new machine has the reset register values, zeroed memory or the caller's own memory, and no device history |
| Mos6502Machine.Mos6502.Step | tools/uci/mos6502.py:209-219 | the in-place step leaves exactly the specified state; when it raises, exactly the specified fault and the specified half-done state |
| Mos6502Machine.Mos6502.Call | tools/uci/mos6502.py:189-207 | the in-place call returns and raises exactly as the run of single steps says, and leaves that run's state either way |
| Mos6502Runs.CallEnds | tools/uci/mos6502.py:189-207 | for any memory image and device a call ends within max_cycles/2 + 1 instructions: at most max_cycles/2 that keep it in flight, then the sentinel is met or one more instruction faults or exceeds the budget |
| Mos6502Runs.CallEndsOnlySo | tools/uci/mos6502.py:198-207 | a way of ending that is possible at one instruction count is the result of the call: outcomes are unique |
| Mos6502Runs.CallReturns | tools/uci/mos6502.py:198-207 | a run that first meets the sentinel after k instructions within the budget is what the call returns |
| Mos6502Runs.PathJoin | tools/uci/mos6502.py:209-219 | runs compose, and so do their counts of how often an address is executed |
| Mos6502Laws.SignedIsUnsignedShifted | tools/uci/mos6502.py:283-301 | the signed value that the overflow clauses of AdcRunAdds and SbcRunSubtracts speak of is the unsigned one less 256^n when the top bit is set |
| Mos6502Arithmetic.ColumnsRun | tools/uci/mos6502.py:209-301 | running n columns of LDA, ADC or SBC, STA on any operand fields that the stores do not run over is the carry chain of the bytes in memory; nothing else in memory, sp or the device history moves |
| Mos6502Arithmetic.AdcRunAdds | tools/uci/mos6502.py:283-291 | such a run leaves the integer sum of two n-byte fields in the third, mod 256^n, with C its carry out and V clear exactly when the signed sum fits; the result may be an operand |
| Mos6502Arithmetic.SbcRunSubtracts | tools/uci/mos6502.py:293-301 | likewise the difference, C clear meaning a borrow in and out |
| Mos6502Arithmetic.DecimalColumnRaises | tools/uci/mos6502.py:283-301 | with D set the same program raises, so D clear is what the laws need and no more |
| Mos6502Arithmetic.AddThenSubtractRun | tools/uci/mos6502.py:283-301 | CLC, add, SEC, subtract, as one program of 2 + 6n instructions: the first operand is back in a third field, and C is clear at the end exactly when the sum overflowed n bytes |
| Mos6502Arithmetic.ImageAddsAndSubtracts | tools/uci/mos6502.py:283-301 | that program in full, nothing assumed: in a given memory image, for any two numbers of up to 256 bytes and any registers with D clear |
| Mos6502Stack.NestedRunBalances | tools/uci/mos6502.py:165-171 | any run of steps whose PHA/PLA, PHP/PLP and JSR/RTS nest, to any depth the 256-byte stack can hold, leaves sp and the stack bytes in use as they were |
| Mos6502Stack.PairRestores | tools/uci/mos6502.py:431-491 | around any such run, PLA gives back the A that PHA pushed, PLP all six flags, and RTS the instruction after the JSR |
| Mos6502Stack.PlainInstruction | tools/uci/mos6502.py:283-480 | every load, comparison, arithmetic or logic operation, branch, jump, flag operation and transfer but TXS may stand anywhere in such a run, also when it reads the device |
| Mos6502Stack.PlainStore | tools/uci/mos6502.py:332-410 | so may every store and every read-modify-write whose effective address is off the stack page or in the device window |
| Mos6502Stack.StatusRoundTrip | tools/uci/mos6502.py:173-186 | the status byte as PHP pushes it, pulled into any state at all, gives back all six flags |
| LoopStub.StubCallsExactly | tools/bench_vic_blank.py:152-179 | the emitted bytes enter the routine exactly outer times inner times, 0 meaning 256, then return with sp restored |
| LoopStub.CallOfStubReturns | tools/bench_vic_blank.py:152-179 | the interpreter's call of the stub returns to the sentinel for every large enough budget, having entered the routine that often |
| LoopStub.InnerLoop | tools/bench_vic_blank.py:173-175 | from any counter value the inner loop's remaining entries are that value, 0 counting as 256 |
| LoopStub.BareRtsReturns | tools/bench_vic_blank.py:152-179 | the hypothesis on the routine is met by a bare RTS |
| LoopStub.RtsBenchReturns | tools/bench_vic_blank.py:152-179 | one benchmark in full, nothing assumed: in a given memory image with an RTS as the routine, from any registers and for any two counts, the call of the stub returns after exactly that many entries |
| SweepTrampoline.SweepTabulates | tools/test_disk_config.py:639-673 | the emitted bytes run the routine exactly 256 times, leave its A at $C000+c and its carry at $C100+c for every c, and return balanced |
| SweepTrampoline.OneRow | tools/test_disk_config.py:662-673 | one pass fills row X of both tables, keeps the earlier rows, and loops until X wraps |
| SweepTrampoline.ClcRtsReturns | tools/test_disk_config.py:639-673 | the hypothesis on the routine is met by `clc / rts` |
| SweepTrampoline.ClcSweepTabulates | tools/test_disk_config.py:639-673 | one sweep in full, nothing assumed: in a given memory image with `clc / rts` as the routine, both tables come out right and the trampoline returns to the sentinel |
| Packets.IpBodyIsSearched | tools/ip65_hw_checks.py:399-440 | of any IPv4 frame, tagged or not and whatever its lengths, exactly the bytes from the end of the IP header to the end of the IP packet are payload (none where the header claims to outrun it), and exactly those from 14 plus the length field at offset 16 are searched as its tail |
| Packets.TailFollowsPayload | tools/ip65_hw_checks.py:721-732 | without a tag payload and tail leave no gap; with one the tail starts at byte 2062 |
| Reassembly.Reassemble | tools/ip65_hw_checks.py:488-552 | the loop's datagrams are the reassembly function of the capture |
| Reassembly.ReassembledDatagrams | tools/ip65_hw_checks.py:520-552 | with gaps, overlaps and equal offsets: byte i is that of the last piece covering i in (offset, arrival) order or 0, the length is the largest end, and complete means MF was seen clear and the sorted pieces tile |
| Reassembly.SortIsStable | tools/ip65_hw_checks.py:524-524 | sorting by offset alone is sorting by (offset, arrival), a permutation |
| Reassembly.TightIsTiling | tools/ip65_hw_checks.py:526-540 | no piece was early or late exactly when the pieces tile |
| Reassembly.EveryFrameOnce | tools/ip65_hw_checks.py:499-516 | each IPv4 frame is in exactly one datagram, and the counts add up |
| Reassembly.UnfragmentedStandsAlone | tools/ip65_hw_checks.py:499-516 | an unfragmented frame is never joined to another |
| Reassembly.CutAndReassembled | tools/ip65_hw_checks.py:488-552 | a datagram cut into non-empty fragments and captured in any order comes back whole and complete |
| ByteSearch.LongestRun | tools/ip65_hw_checks.py:591-608 | the pruned binary search gives the length of the longest piece of the needle in the haystack and the smallest start attaining it, or (0, -1) |
| ByteSearch.LongestRunIsUnique | tools/ip65_hw_checks.py:591-608 | only one answer meets that description |
| ByteSearch.ShorterRuns | tools/ip65_hw_checks.py:598-605 | runs are monotone in length, which makes the binary search right |
| ByteSearch.PetsciiForm | tools/ip65_hw_checks.py:558-572 | the loop folds each byte on its own |
| ByteSearch.FormLaws | tools/ip65_hw_checks.py:558-588 | every form but the reversal is idempotent, reversing twice is the identity, and texts with one folded form have one shifted and one screen form |
| ByteSearch.ScreenCodeForm | tools/wire_plaintext_search.py:60-82 | the edited byte array is the screen-code form |
| ByteSearch.SearchForms | tools/ip65_hw_checks.py:623-639 | every offset at which some form starts is reported once, under the first form that matches there, and nothing else is |
| LeakSearch.FindPlaintext | tools/ip65_hw_checks.py:648-739 | no finding exactly when no needle is anywhere in any form or long enough part; every finding is real, a partial one being the longest run at its first offset where there is no full appearance; every full appearance is reported, and every long enough part of a needle that has none |
| LeakSearch.LongestDecides | tools/ip65_hw_checks.py:700-718 | the longest run alone decides whether a run of partial_min or more exists |
| LeakSearch.CheckPlaintextAbsent | tools/ip65_hw_checks.py:742-853 | pass and fail each have an exact condition: a pass means enough datagrams from the C64 and no needle in any reassembled datagram or frame remainder |
| LeakSearch.TornPlaintextIsNotClean | tools/ip65_hw_checks.py:700-718 | a needle torn across fragments is found, and the capture is not clean |
| WireLeaks.CaptureFrames | tools/ip65_hw_checks.py:379-396 | every record long enough for an Ethernet header is among the frames under its own number, none comes from elsewhere, and numbers are distinct |
| FragmentLoss.StretchIsSeenIff | tools/ip65_hw_checks.py:520-552 | a stretch of a payload is in its reassembled datagram, at its place, if and only if none of its bytes is beaten by the winning piece at that offset |
| FragmentLoss.AllSeenIff | tools/ip65_hw_checks.py:488-552 | every stretch of every payload is in its datagram if and only if no two overlapping fragments of one datagram disagree, a condition on the frames alone |
| FragmentLoss.CompleteLosesNothing | tools/ip65_hw_checks.py:526-540 | a datagram reported complete has lost no byte of any of its frames |
| WireLeaks.SeenIff | tools/ip65_hw_checks.py:648-739 | the search comes across given bytes, at their offset in a record, if and only if they are in none of its unsearched places: an Ethernet header; or, before the tail, begun before the payload, ended past the IP packet, or with a lost byte |
| WireLeaks.WireIsClean | tools/ip65_hw_checks.py:648-739 | after a clean verdict any form of any needle, at any offset of any recorded frame, stands in one of those places |
| WireLeaks.PayloadIsClean | tools/ip65_hw_checks.py:520-552 | in any IPv4 payload a form or long enough piece of a needle survives a clean verdict only with a byte that is not in its datagram, another fragment having won that offset |
| WireLeaks.CompleteIsClean | tools/ip65_hw_checks.py:520-552 | no payload of a complete datagram holds a form or long enough piece of a needle |
| WireLeaks.ConsistentIsClean | tools/ip65_hw_checks.py:520-552 | nor does any payload of a capture in which no two overlapping fragments disagree |
| WireLeaks.UnfragmentedIsClean | tools/ip65_hw_checks.py:499-516 | nor does the payload of any unfragmented frame |
| WireLeaks.OverlapPasses | tools/ip65_hw_checks.py:742-853 | for any text and any equally long cover without it, two fragments at one offset carry the text whole on the wire and the whole check passes |
| WireLeaks.HeaderPasses | tools/ip65_hw_checks.py:742-853 | the whole check for the sender's own Ethernet address passes, though it stands in the header, over any payload without it |
| WireLeaks.StraddlePasses | tools/ip65_hw_checks.py:720-732 | for any text cut in two, the check passes over a frame that has its beginning as payload and its end as padding, when the beginning is shorter than partial_min |
| WireLeaks.TaggedPasses | tools/ip65_hw_checks.py:721-727 | for any text, the check passes over an 802.1Q frame that has it as padding |
| WireAbsence.FindPlaintext | tools/wire_plaintext_search.py:142-171 | refused exactly when vacuous; otherwise every hit is real, and every needle, form and offset at which that form stands has its hit |
| WireAbsence.PlaintextAbsent | tools/wire_plaintext_search.py:174-193 | when not refused, true exactly when none of the five forms of any needle occurs |
| WireAbsence.AcceptedSearchIsNotVacuous | tools/wire_plaintext_search.py:130-160 | what is not refused really examined something: each needle ASCII, non-empty and no longer than the buffer |
| WireAbsence.AbsenceAndControl | tools/wire_plaintext_search.py:216-238 | both arms are the same search, over the counterfactual and over the datagram |
| WireAbsence.ControlSeesTheBody | tools/wire_plaintext_search.py:196-213 | the control fires whenever the body holds a needle, and a datagram sent in the clear is its own counterfactual |
| EchoPairs.PairEchoes | tools/ip65_hw_checks.py:1221-1261 | each key is paired at most once, its first request with the host's first later reply; paired keys are the answered ones; replies = pairs + unmatched and requested keys = pairs + unanswered |
| EchoPairs.AnsweredStep | tools/ip65_hw_checks.py:1221-1261 | one more frame makes a key answered exactly when it is a host reply to an earlier request |
| ChaCha20.RotlInverse | tools/test_chacha20_poly1305.py:36-38 | rotating by n and by 32 - n is the identity on words |
| ChaCha20.QuarterRoundRef | tools/test_chacha20_poly1305.py:41-54 | the in-place slot updates are the quarter round of the old state |
| ChaCha20.QuarterRoundBijective | tools/test_chacha20_poly1305.py:41-54 | the quarter round is a bijection of states, with its inverse given |
| ChaCha20.RoundsBijective | tools/test_chacha20_poly1305.py:65-75 | so is any number of double rounds |
| ChaCha20.BlockRef | tools/test_chacha20_poly1305.py:57-78 | the working array gives the block: ten double rounds, added to the initial state, packed |
| ChaCha20.EncryptRef | tools/test_chacha20_poly1305.py:81-88 | the loop over 64-byte chunks is the encryption function |
| ChaCha20.EncryptAt | tools/test_chacha20_poly1305.py:81-88 | byte i is exclusive-or'd with byte i mod 64 of block counter + i/64 |
| ChaCha20.EncryptIsOwnInverse | tools/test_chacha20_poly1305.py:81-88 | encrypting twice gives the text back, for every length and counter |
| ChaCha20.EncryptSplits | tools/test_chacha20_poly1305.py:81-88 | a message splits at any multiple of 64 with the counter advanced |
| Poly1305.ClampIsMask | tools/test_chacha20_poly1305.py:93-106 | the seven byte masks are one 128-bit mask, and r is below 2^124 |
| Poly1305.BlocksInjective | tools/test_chacha20_poly1305.py:111-114 | the block encoding with its high bit is injective on messages |
| Poly1305.HornerIsPolynomial | tools/test_chacha20_poly1305.py:110-115 | the reduced Horner loop is the sum of block_i * r^(n-i) mod 2^130 - 5 |
| Poly1305.Poly1305Ref | tools/test_chacha20_poly1305.py:91-118 | the tag is that polynomial at the clamped r, plus s, mod 2^128 |
| Poly1305.MacDataInjective | tools/test_chacha20_poly1305.py:130-139 | the MAC input is whole 16-byte blocks and determines (aad, ciphertext), lengths below 2^64 |
| Poly1305.MacDataLayout | tools/test_chacha20_poly1305.py:130-139 | where aad and ciphertext lie in it |
| Poly1305.AeadEncryptRef | tools/test_chacha20_poly1305.py:121-142 | the ciphertext decrypts to the plaintext, and the tag is over exactly that MAC input under the one-time key |
| X25519.Clamp | tools/test_crypto_kat_bump_differential.py:117-126 | the masks on a copy of the scalar |
| X25519.ClampedIsInRange | tools/test_crypto_kat_bump_differential.py:117-126 | a clamped scalar is a multiple of 8 in [2^254, 2^255), and clamping changes exactly the scalars that are not |
| X25519.SameIsRemainder | tools/test_crypto_kat_bump_differential.py:80-80 | the congruence the next rows speak of is equality of remainders mod 2^255 - 19 |
| X25519.DoublingFormula | tools/test_crypto_kat_bump_differential.py:99-111 | the step's first pair is x-only doubling mod 2^255 - 19 |
| X25519.AdditionFormula | tools/test_crypto_kat_bump_differential.py:99-111 | its second pair is differential addition mod 2^255 - 19 |
| X25519.DoublesAt | tools/test_crypto_kat_bump_differential.py:99-111 | where the textbook doubling formula computes the double in a group, so do the source's products |
| X25519.AddsAt | tools/test_crypto_kat_bump_differential.py:99-111 | likewise for the differential addition |
| X25519.DeferredRefinesTextbook | tools/test_crypto_kat_bump_differential.py:92-98 | carrying out the pending swap gives the textbook ladder's registers after every bit |
| X25519.TextbookInvariant | tools/test_crypto_kat_bump_differential.py:91-111 | over any group for which the textbook formulas hold, the registers stand at m and m + 1 times the point, m being the bits so far |
| X25519.LadderMultiplies | tools/test_crypto_kat_bump_differential.py:83-114 | the source's own ladder, pending swap and all, ends at k times the point, for every 255-bit k |
| X25519.ZeroPointGivesZero | tools/test_crypto_kat_bump_differential.py:83-114 | a point with x = 0 mod p gives all zero for every scalar |
| X25519.HostX25519 | tools/test_crypto_kat_bump_differential.py:83-114 | the method, bytes in and bytes out, gives the host result of the next row for every point string and every 32-byte scalar |
| X25519.HostMultiplies | tools/test_crypto_kat_bump_differential.py:83-126 | that result is 32 bytes of the affine x, below p, of the clamped scalar times the point (zero at infinity), the clamped scalar being in range |
| X25519.ResultIsAffine | tools/test_crypto_kat_bump_differential.py:114-114 | where z^(p-2) inverts z the result is x / z |
| Responder.AcceptedExactlyWhen | tools/wg_responder/responder.py:173-240 | an initiation is answered if and only if it is well formed, its MAC1 is right, it decrypts to a 12-byte timestamp above the greatest accepted, and the reply has 48 bytes |
| Responder.RejectedChangesNothing | tools/wg_responder/responder.py:229-240 | a call that raises leaves every field alone, except exactly the wrong-size reply |
| Responder.ShortReplyCommits | tools/wg_responder/responder.py:229-240 | that exception at a concrete handshake whose reply has 47 bytes: the error is raised and the session and its timestamp are committed |
| Responder.AcceptedAdvances | tools/wg_responder/responder.py:219-238 | acceptance strictly raises this peer's greatest timestamp, touches no other peer's, and restarts the send counter |
| Responder.Type2Layout | tools/wg_responder/responder.py:275-287 | a response is 92 bytes: type, our index, the initiation's own sender field, the Noise message, MAC1 over the first 60 bytes, zero MAC2 |
| Responder.Type4Layout | tools/wg_responder/responder.py:258-271 | a transport packet carries the peer's index and the counter from before the call, then the ciphertext |
| Responder.WireGuardResponder.HandleInitiation | tools/wg_responder/responder.py:173-240 | the method's fields and result are those of the specified initiation |
| Responder.WireGuardResponder.EncryptTransport | tools/wg_responder/responder.py:258-271 | likewise for encryption, the counter moving only after the cipher succeeded |
| Responder.WireGuardResponder.DecryptTransport | tools/wg_responder/responder.py:247-256 | likewise for decryption, which changes only the Noise state |
| Server.Session.SendText | tools/wg_responder/server.py:196-222 | a line is encoded, cut to the receive limit, encrypted and counted; without a session nothing changes |
| Server.RunServer | tools/wg_responder/server.py:247-329 | the loop over any stream of datagrams and lines ends in the state and with the log of the run function |
| Server.StepKeeps | tools/wg_responder/server.py:266-329 | every event keeps the server's invariant |
| Server.AcceptedTimestampsIncrease | tools/wg_responder/server.py:276-302 | over every run accepted timestamps strictly increase, as 96-bit integers and lexicographically |
| Server.ActiveExactlyWhenAccepted | tools/wg_responder/server.py:263-326 | while the loop runs, active means some initiation was accepted; the peer is the latest one's; packets built since are numbered 0, 1, 2, ... with its index |
| Server.RefusedInitiationIsNoOp | tools/wg_responder/server.py:281-296 | an initiation refused with a ValueError leaves the whole server as it was |
| Server.ChatPayloadIsPrefix | tools/wg_responder/server.py:72-86 | one byte per character, dots for the unmappable, cut at the limit |
| Bytes.BeOrderIsLex | tools/wg_responder/responder.py:226-227 | comparing equal-length strings as big-endian integers is comparing them lexicographically |
| Keyboard.Machine.WaitDrained | tools/wg_c64_input.py:46-53 | true means the C64 took every key; false only at the deadline |
| Keyboard.Machine.PressKey | tools/wg_c64_input.py:56-62 | true means exactly that key was consumed after all before it |
| Keyboard.Machine.TypeText | tools/wg_c64_input.py:65-79 | true means exactly the text was consumed; at every recorded moment, one for each key taken and each write, what was typed is a beginning of it and the queue never holds more than ten |
| Keyboard.Machine.SendMessage | tools/wg_c64_input.py:82-95 | under every interleaving, at every moment a key is taken or written, consumed ++ queue is a beginning of M, the line, RETURN; true means exactly that was consumed; a C64 that empties its queue makes it true |
| Keyboard.NothingIsLost | tools/wg_c64_input.py:46-95 | between any two moments of any run a consumed key stays consumed and a typed key typed, in order |
| Gate.Reap | tools/run_regression.py:492-527 | no suite is lost or doubled; a kill is recorded only for one over its budget, any other result only as its process gave it; the survivors are exactly the suites without a result, with their start times and in order, and were within budget |
| Gate.RunPool | tools/run_regression.py:817-829 | ends even if every process hangs, with one result per suite; the moves from first to last are launches into a pool of five, each at its time, and sweeps that put each suite they take out among the results |
| Gate.RunSerial | tools/run_regression.py:841-850 | the same for the serial suites, each of which runs alone, going on from where the pool ended |
| Gate.RunGate | tools/run_regression.py:766-897 | exit 0 if and only if the build worked, every suite exited 0 without being killed, and the restore build worked; over the whole run every move is a launch or a sweep, at each the suites are partitioned and at most five run, every kill is of a suite more than SUITE_TIMEOUT past its own launch, and the run ends with all of them done |
| Gate.StoryKeepsPartition | tools/run_regression.py:817-850 | from the first moment on, every sequence of such moves keeps each suite in one place and at most five running |
| Gate.StoryGoesForward | tools/run_regression.py:817-850 | results are never taken back or changed, the clock does not run back, and suites leave the waiting list in its own order |
| Gate.KilledRanOver | tools/run_regression.py:492-527 | in every such sequence of moves a killed suite was launched by one move and recorded by a later one, more than its budget apart |
| Gate.InExactlyOnePlace | tools/run_regression.py:817-829 | the counting invariant, for distinct names, is exactly one of pending, running, done |

## Left out

- X25519.LadderMultiplies: that the textbook x-only formulas hold on Curve25519 is a hypothesis about the group, not proved from the curve equation.
- X25519.HostMultiplies: that 2^255 - 19 is prime, and so that z^(p-2) inverts every z not 0 mod p, is a hypothesis.
- X25519.HostX25519: scalars of 32 bytes only; the source would index past shorter ones and ignore the excess of longer ones.
- Poly1305.AeadEncryptRef: lengths of 2^64 and more, which the source cannot encode, are outside its contract.
- ChaCha20.BlockRef: keys of 32 and nonces of 12 bytes only, as the source's unpacking demands.
- Server.RunServer: an initiation, a transport packet and a typed line are each one atomic step; the source runs the initiation outside the session lock, so a line racing it is not covered.
- Keyboard.Machine.WriteBuffer: the C64 only removes keys; a person typing on it at the same time is not modelled.
- Gate.RunGate: suite names are distinct, as in the repository's two lists; output text, log files and failures to launch a process are not modelled.
- WireLeaks.WireIsClean: about whole forms; `WireLeaks.PayloadIsClean` is also about pieces, which the source looks for in datagrams only.
- Mos6502Stack.NestedRunBalances: an instruction inside the nesting that writes the stack page through an address, or moves sp by TXS, is not covered.
- Mos6502Arithmetic.ColumnsRun: absolute operands, in straight-line code; a loop over an index register computes the same columns but is not modelled.
- Mos6502Spec.Step: a device sees the whole machine but changes only its own answers; a callback that writes into the machine is not modelled, nor one that remembers an access on which it raised.
- The responder's constructor checks and key derivation, BLAKE2s and the Noise library: calls into code not shown, taken as functions or oracles.
- `build_read_trampoline`: its branch reaches the failure arm's RTS, so the commented contract does not hold and nothing is claimed for it.
- `send_message_dma` and `rekey`: the same queue protocol with extra writes and polls.
- Capture files, ARP, timestamps, round-trip times, verdict wording, logs and provenance.
- The remaining checks of the evidence library, device capabilities, layout guards and the VICE, REST and socket plumbing: case analysis or I/O.
