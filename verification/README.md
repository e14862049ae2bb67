# Verified model of a macOS RDP server's algorithms and protocols

The program is a macOS RDP server. Most of it talks to Apple frameworks; between those calls sit
algorithms and small protocols that must be right for every input and every schedule. This project
models them, one module per component, and proves what they promise.

| file | what it models |
|---|---|
| `Common.dfy` | bytes, options and a few helpers |
| `Avc444.dfy` | one YUV444 frame as two YUV420 views and back, in place, over strided planes ([MS-RDPEGFX] section 3.3.8.3.2) |
| `Nal.dfy` | length-prefixed H.264 to Annex B on the sending side, Annex B scanning and re-framing in the camera decoder (ITU-T H.264 Annex B and section 7.4.1) |
| `AuthGuard.dfy`, `AuthGuardLaws.dfy`, `AuthGuardAnswers.dfy` | the per-address connection guard, refined to its full history, what follows for whole runs, and every answer from the calls alone |
| `LegacyPaint.dfy` | strips, bitmap updates, the bounded paint queue and its full-frame resync |
| `ResizeCell.dfy` | the lock-free debounced resize cell |
| `BlankRecovery.dfy` | QoE counters, blank-recovery attempts, the storm guard across reconnects |
| `AckRing.dfy` | the ship-time ring and the two-bucket windowed minimum |
| `Download.dfy` | the reply router and the windowed parallel download of one file |
| `Dib.dfy` | CF_DIB payloads written and read |
| `LogRotation.dfy` | the rotating log file, over restarts |
| `AudioGeneration.dfy` | the generation protocol of audio capture |

Code that works in place is a class or a method over arrays, with loops and invariants, whose
contract ties the new state to a specification function; the laws are then proved about that
function. Code shared between threads or tasks is a step relation with one atomic action per step,
and the laws hold in every run. Times are integers (nanoseconds, or milliseconds in the resize cell).

Main results: `Avc444.FrameRoundTrip`, `Nal.ScanUndoesPrint`, `Nal.Tiling`,
`Nal.KeyframeReachesDecoder`, `AuthGuard.RunAnswersLikeHistory`, `AuthGuardLaws.AcceptsPerWindow`,
`AuthGuardAnswers.AnswerExactly`, `AuthGuardLaws.RejectedLeaveNoTrace`,
`LegacyPaint.AlwaysSyncedExactly`, `ResizeCell.LastRequestNotLost`, `ResizeCell.LostExactly`,
`ResizeCell.SettledIsTaken`, `BlankRecovery.ConnectionLaws`, `BlankRecovery.MustRecover`,
`BlankRecovery.StormBounded`, `AckRing.DelayIsExcessOverWindow`, `Download.FileIsAssembled`,
`Download.OkExactly`, `Dib.RoundTripExactly`, `LogRotation.RunLaw` and
`AudioGeneration.AtMostOneActive`.

Round trips and refinements leave a choice of representation open: a picture flipped by both sides
comes back whole. So beside them stand laws in plain indices, bytes and numbers, with the constants
written out, that say what each operation leaves behind.

What the proofs brought out about the code:

- A fetch checks only that a reply is not empty (src/file_promise.rs:540). Whatever non-empty bytes
  answer its requests, it reports success with those bytes in the file
  (`Download.AnyReplySucceeds`): a reply that stops short, or runs past the end, is a wrong file
  reported as success (`Download.WrongLengthAccepted`). `Download.OkExactly` says exactly when success
  means an identical file, `Download.FullRepliesSuffice` names the guard that is missing, and
  `Download.HonestPeer` what is left to go wrong with a peer that only ever sends right bytes.
- With `max_parallel_chunks` 0 a fetch asks for nothing and reports success, right only for a file of
  zeros (`Download.EmptyWindowExactly`); the two callers pass 8 and 1. With chunk size 0 planning a
  non-empty file never ends (`Download.PlanLoopEnds`).
- The paint loop keeps clients in step, in every run with accurate dirty rects, if and only if the
  strips of a whole frame fit the queue (`LegacyPaint.AlwaysSyncedExactly`): beyond that the second
  overflow clears the resync flag (src/capture.rs:1914-1934). A 7680 x 4320 frame is 36 strips, more
  than the default limit of 32 (`LegacyPaint.EightKTooLarge`). If whole frames are all that is ever
  painted, such a frame is never shown at all (`LegacyPaint.OversizedFrameNeverShown`); dirty rects
  that fit are still painted.
- A requester held up between reading the clock and storing the stamp can store a stamp equal to the
  one the taker loaded; the compare-exchange then consumes the newer request's stamp
  (`ResizeCell.NewerStampConsumed`, src/capture.rs:194-202), and no request is lost by that.
  `ResizeCell.TakeReturnsLoadedExactly` and `ResizeCell.TakeConsumesLoadedExactly` say when a take
  returns and consumes what it found settled, as the comment at src/capture.rs:182-184 has it.
- Both stores of a resize request are relaxed (src/capture.rs:153-161). If the stamp becomes visible
  before the size, the only request can be lost and 0 x 0 returned (`ResizeCell.RelaxedLosesRequest`);
  `ResizeCell.LostExactly` says when.
- The comment at src/h264.rs:95-102 promises a new base within a minute. Buckets rotate only when a
  sample comes: with samples at most g apart no sample older than two windows and g counts
  (`AckRing.DelayIsExcessOverWindow`), but after a pause of any length the sample before it is still
  the base (`AckRing.PauseKeepsBase`).
- The comment at src/file_promise.rs:105-106 says that stream ids start at 1; the counter starts at
  0 and the first registration skips it. The model follows the code.
- The comment at src/clipboard.rs:93-96 says that only BI_RGB is accepted; the code also accepts
  compression 3 and 6 at 32 bits (src/clipboard.rs:125-134). The model follows the code.
- The overflow checks of the bitmap decoder never turn away a complete payload below 2^63 bytes, and
  the last of them, on the output size, never fires (`Dib.AcceptedExactly`, `Dib.CheckedExactly`).

## Model

| member | source | states |
|---|---|---|
| Avc444.PaddedAuxHeight | src/avc444.rs:43-45 | the padded height is a multiple of 16 above the frame height by at most 16 |
| Avc444.SplitYuv444 | src/avc444.rs:51-144 | cell by cell, what each of the six written planes holds afterwards -- `mainY[y * stride + x]` is `srcY[y * stride + x]`, quarter planes hold columns 2x or 2x + 1 of row 2y, auxiliary rows 16q + s and 16q + 8 + s hold row 16q + 2s + 1 of U and of V -- and that every other cell keeps its value |
| Avc444.CopyPlane | src/avc444.rs:81-86 | cell (x, y) of the frame becomes cell (x, y) of the source, for any strides; every other cell keeps its value |
| Avc444.TakeColumns | src/avc444.rs:88-99 | the quarter-size chroma plane is the even rows' columns 2x, or 2x + 1 for the auxiliary planes |
| Avc444.PackStrips | src/avc444.rs:101-127 | the counter-driven loop puts exactly the odd rows of U and V into their 8-line strips and leaves padding rows untouched |
| Avc444.CounterRow | src/avc444.rs:105-113 | the running counters equal a closed form, so row y carries odd row `CarriedRow(y)` |
| Avc444.StripLayout | src/avc444.rs:101-127 | every odd U row and odd V row has exactly one auxiliary row, below the padded height, and each auxiliary row carries one of them |
| Avc444.TwoRowsFit | src/avc444.rs:281-298 | for an even frame that fits its buffer the two borrowed rows always exist and do not overlap |
| Avc444.SpreadChroma | src/avc444.rs:181-213 | the luma pass writes each main chroma sample over its 2x2 block and nothing else |
| Avc444.CombineLuma | src/avc444.rs:151-214 | cell by cell, Y is the main Y at the same place and each chroma cell (x, y) the main chroma cell (x / 2, y / 2); cells outside the frame keep their values |
| Avc444.UnpackStrips | src/avc444.rs:238-262 | the chroma pass takes every odd row back from the strip that carries it |
| Avc444.FillColumns | src/avc444.rs:264-276 | the chroma pass fills the odd columns of even rows and leaves the rest |
| Avc444.CombineChroma | src/avc444.rs:220-277 | cell by cell, odd rows come from the strips and odd columns of even rows from the auxiliary quarter planes; even columns of even rows stay |
| Avc444.CopyOnCells | src/avc444.rs:81-86 | in raw indices: row y of the copy is row y of the source, and nothing else changes |
| Avc444.QuarterOnCells | src/avc444.rs:88-143 | in raw indices: the quarter plane holds columns 2x, or 2x + 1, of row 2y |
| Avc444.StripOnCells | src/avc444.rs:101-127 | in raw indices: frame row 16q + 2s + 1 is auxiliary row 16q + s for U and 16q + 8 + s for V, and no other row is written |
| Avc444.BlockOnCells | src/avc444.rs:181-213 | in raw indices: cell (x, y) is cell (x / 2, y / 2) of the main chroma plane |
| Avc444.ChromaOnCells | src/avc444.rs:238-276 | in raw indices: both halves of the chroma pass, and which cells stay |
| Avc444.LumaRoundTrip | src/avc444.rs:81-86 | Y survives the main view and back for all strides and prior contents |
| Avc444.CombinedSample | src/avc444.rs:181-276 | which view each rebuilt chroma sample comes from |
| Avc444.SentSample | src/avc444.rs:88-143 | the split put that sample exactly where the decoder looks for it |
| Avc444.ChromaRoundTrip | src/avc444.rs:88-277 | a chroma plane of even size survives split, luma pass and chroma pass, and no cell outside the frame changes |
| Avc444.FrameRoundTrip | src/avc444.rs:51-277 | a whole frame through all three passes in place: Y, U and V are exact, whatever the nine buffers held and for all legal strides |
| Avc444.QuartersRoundTrip | src/avc444.rs:88-143 | combining any two views and splitting again returns their quarter-size chroma planes |
| Avc444.StripsRoundTrip | src/avc444.rs:101-127 | and every auxiliary Y row whose carried row is below the height |
| Nal.AvccToAnnexB | src/h264.rs:3521-3550 | the loop prints parameter sets on keyframes, then every unit up to the first length that overruns the buffer; the bytes are those of `UnitToAnnexB` and `SetsToAnnexB` |
| Nal.UnitToAnnexB | src/h264.rs:3532-3548 | on bytes: a unit behind its length a, b, c, d, most significant first, becomes 0, 0, 0, 1 and the unit, and the rest follows; a length that overruns, or fewer than four bytes, end the conversion |
| Nal.SetsToAnnexB | src/h264.rs:3525-3530 | on bytes: a keyframe's parameter sets come first, each behind 0, 0, 0, 1; another frame carries none |
| Nal.AnnexBNals.constructor | src/camera/decode.rs:509-511 | the iterator starts at the beginning of the buffer |
| Nal.AnnexBNals.NextStartCode | src/camera/decode.rs:514-529 | returns the least position at or after `from` that holds a start code, with its length, or none if there is none |
| Nal.AnnexBNals.Next | src/camera/decode.rs:535-546 | yields the bytes from after the next start code to the following one or the end, and moves there |
| Nal.NextNal | src/camera/decode.rs:535-546 | the bounds it yields are in order, inside the buffer and past the old position |
| Nal.Tiling | src/camera/decode.rs:508-547 | for any bytes, codes and slices tile the buffer from the first start code to the end, every code is `00 00 01` or `00 00 00 01`, and no slice holds `00 00 01` |
| Nal.H264Decoder.TakeNal | src/camera/decode.rs:337-350 | types 7 and 8 are kept as SPS and PPS, type 9 and empty units dropped, everything else appended behind the four bytes of its length, most significant first |
| Nal.H264Decoder.TakeAccessUnit | src/camera/decode.rs:333-351 | the re-framed access unit is the AVCC form of the slices found, byte by byte as `UnitToAvcc` has it, and the kept parameter sets are the last ones seen |
| Nal.UnitToAvcc | src/camera/decode.rs:337-350 | on bytes: an empty unit or one of type 7, 8 or 9 adds nothing, any other its length, most significant byte first, and itself |
| Nal.LastOfTypeLaw | src/camera/decode.rs:341-343 | the parameter set kept is the unit of its type that no other follows, or the one from before if there is none |
| Nal.PrintedCode | src/h264.rs:3522-3546 | a printed 4-byte code is found at its first byte even after a unit that is empty or ends in zeros |
| Nal.ScanUndoesPrint | src/h264.rs:3521-3550 | scanning a printed list gives that list back if and only if no unit holds `00 00 01` |
| Nal.ParseUndoesAvcc | src/h264.rs:3532-3548 | length prefixes give the list back if and only if every unit is shorter than 2^32 |
| Nal.ReframeUndoesAnnexB | src/camera/decode.rs:333-351 | the camera decoder rebuilds the same AVCC when every unit is free of start codes, non-empty and not of type 7, 8 or 9, and only then for access units below 4 GiB |
| Nal.BuildPayload | src/h264.rs:3030-3048 | the payload of either wire format; the bytes are those of `SetsToAvcc` and `SetsToAnnexB` |
| Nal.SetsToAvcc | src/h264.rs:3032-3045 | on bytes: a length-prefixed keyframe starts with the length of its first parameter set, most significant byte first, and that set; frames without sets and other frames are the encoder's data |
| Nal.FormatsAgree | src/h264.rs:3030-3048 | the length-prefixed payload turned into Annex B equals the direct Annex B payload, also for damaged encoder output |
| Nal.KeyframeReachesDecoder | src/h264.rs:3521-3550 | an Annex B keyframe leaves the decoder with the frame's last SPS and PPS and passes on exactly its slices |
| AuthGuard.CanonicalIp | src/auth_guard.rs:80-88 | no IPv4-mapped IPv6 address is left |
| AuthGuard.SameKeyExactly | src/auth_guard.rs:77-88 | two addresses share a key if and only if they are equal or one is the other's IPv4-mapped form `::ffff:a.b.c.d`, keys are their own keys, and a mapped loopback is still a loopback |
| AuthGuard.LoopbackOctets | src/auth_guard.rs:240-243 | exempt are exactly the IPv4 addresses that begin with 127, and `::1` |
| AuthGuard.EscalatedCooldown | src/auth_guard.rs:357-365 | never longer than max |
| AuthGuard.CooldownLaw | src/auth_guard.rs:357-365 | for every failure count the lockout is base times 2^(n - threshold), the factor saturating at 2^32 - 1 and the result at max |
| AuthGuard.CooldownDoubles | src/auth_guard.rs:357-365 | the first lockout is the base, each of the next 31 failures doubles it, from the 32nd on it is 4294967295 times the base, all capped at max |
| AuthGuard.CooldownMonotone | src/auth_guard.rs:357-365 | more failures never earn a shorter lockout |
| AuthGuard.AuthGuardCore.constructor | src/auth_guard.rs:226-231 | the guard starts with an empty table |
| AuthGuard.AuthGuardCore.Decide | src/auth_guard.rs:239-286 | the answer and the whole new table of one attempt; the address has an entry touched now, with the attempt in it if it was accepted |
| AuthGuard.AuthGuardCore.RecordOutcome | src/auth_guard.rs:289-316 | the whole new table after an outcome: the address's entry touched now, its failures cleared or one more up to 4294967295, its attempts and every other entry kept |
| AuthGuard.AuthGuardCore.PruneQueue | src/auth_guard.rs:252-261 | the prune loop drops the attempts before the cutoff at the front |
| AuthGuard.PruneKeepsRecent | src/auth_guard.rs:252-261 | in an ordered queue what is left is exactly the attempts no older than the window |
| AuthGuard.AuthGuardCore.EvictStale | src/auth_guard.rs:319-348 | the sweep keeps exactly the entries that are not idle after pruning, and at the hard cap drops a tenth plus one with the oldest touch |
| AuthGuard.SweepLaw | src/auth_guard.rs:319-348 | a sweep shortens queues at the front and changes nothing else of what it leaves; from 50000 kept entries on it takes a tenth plus one of them, touched no later than those left |
| AuthGuard.RetainedExactly | src/auth_guard.rs:324-335 | an entry outlives the sweep if and only if its newest attempt is at most a window old, a failure stands against it, or a lockout is in force |
| AuthGuard.AuthGuardCore.DropOldest | src/auth_guard.rs:337-346 | the entries dropped are n that were touched no later than any that stay |
| AuthGuard.SweepBelowCap | src/auth_guard.rs:324-337 | below the cap the sweep is the retain pass alone |
| AuthGuard.FewPeersNeverFull | src/auth_guard.rs:337 | a run with fewer than 50000 distinct peers never reaches the cap |
| AuthGuard.IdleForgotten | src/auth_guard.rs:161-165 | an idle entry carries no information that a missing one would not |
| AuthGuard.StepSimulates | src/auth_guard.rs:239-316 | one call keeps the table in step with the full history and answers like it |
| AuthGuard.GuardRefinesHistory | src/auth_guard.rs:239-335 | from any table in step with a history, every answer of a run is the answer of the history that never forgets |
| AuthGuard.RunAnswersLikeHistory | src/auth_guard.rs:239-335 | the same for whole runs from the start, so eviction cannot be observed |
| AuthGuard.ServeOne | src/auth_guard.rs:239-316 | one call of the object below the cap is one step of the table |
| AuthGuard.Serve | src/auth_guard.rs:239-348 | the object over any list of calls below the cap gives the answers of `Answers`, and so those of the full history |
| AuthGuardLaws.AcceptsPerWindow | src/auth_guard.rs:276-285 | every closed interval of the configured window holds at most the configured `max_attempts` accepts of one address |
| AuthGuardLaws.LockoutIsExact | src/auth_guard.rs:263-316 | after n straight failures, n at least the threshold, attempts before the earned end are told the exact remaining time, later ones are not locked out |
| AuthGuardLaws.OnlySuccessShortens | src/auth_guard.rs:289-316 | without a success the end of a lockout can only move back |
| AuthGuardLaws.AddressesIndependent | src/auth_guard.rs:239-316 | the answers to one address are those of the run with all other addresses removed |
| AuthGuardLaws.SweptTableExact | src/auth_guard.rs:319-335 | a swept table holds exactly the addresses with an accept in the window, an unforgiven failure or a lockout in force |
| AuthGuardLaws.SameFactsSameFullness | src/auth_guard.rs:319-347 | how full the table gets depends on the history alone, not on what was evicted |
| AuthGuardLaws.RejectedLeaveNoTrace | src/auth_guard.rs:276-282 | deleting a rejected attempt changes no other answer, and the shorter run stays below the cap too |
| AuthGuardAnswers.AnswerExactly | src/auth_guard.rs:239-316 | every answer of every run below the cap, from the configuration, the calls and the earlier answers alone: locked out exactly from a failure that brings the streak to the threshold until the earned time is over, with the time left; otherwise accepted exactly if fewer than `max_attempts` accepts lie in the window that ends now, and else told how many |
| AuthGuardAnswers.AcceptedPerWindow | src/auth_guard.rs:276-285 | at most `max_attempts` accepts in any window, counted on calls and answers |
| AuthGuardAnswers.FailuresAreStreak | src/auth_guard.rs:297-303 | the failure counter is the length of the streak of failures that ends the calls, up to 4294967295 |
| AuthGuardAnswers.LockoutIsEarned | src/auth_guard.rs:297-315 | a lockout is the one that the latest failure earned, and there is none below the threshold or after a success |
| LegacyPaint.StripRows | src/capture.rs:938-939 | a strip has at least one row and stays within the pixel budget |
| LegacyPaint.SplitStrips | src/capture.rs:931-948 | the strips are non-empty full-width bands without gap or overlap, within budget; up to 921600 pixels the rect itself, beyond that band i starts i times 921600 / w rows down and has that many rows but for the last |
| LegacyPaint.StripCountIs | src/capture.rs:931-948 | how many strips, in plain numbers |
| LegacyPaint.BandsCover | src/capture.rs:931-948 | a pixel is in the rect exactly when it is in one of the bands |
| LegacyPaint.BandsDisjoint | src/capture.rs:931-948 | and in no more than one |
| LegacyPaint.RectUpdate | src/capture.rs:1331-1358 | the update is the packed copy of the rect, none for an empty rect; all reads are in bounds |
| LegacyPaint.CopiedPixel | src/capture.rs:1344-1348 | the four bytes at (y - r.y) * 4w + 4 * (x - r.x) of the packed copy are the frame's pixel (x, y) |
| LegacyPaint.CopiedByte | src/capture.rs:1344-1348 | byte c of pixel (dx, dy) of the copy is the frame's byte at (r.y + dy) * stride + 4 * (r.x + dx) + c |
| LegacyPaint.PaintedParts | src/capture.rs:1904-1913 | painting parts of one frame in any order shows it on every covered pixel and leaves the others |
| LegacyPaint.Clamp | src/capture.rs:1881-1899 | what is painted of a dirty rect lies in the frame; `ClampExactly` says which pixels those are |
| LegacyPaint.ClampCovers | src/capture.rs:1881-1899 | and covers all of its on-screen pixels |
| LegacyPaint.ClampExactly | src/capture.rs:1881-1899 | an on-screen pixel is painted if and only if Max(d.x, 0) <= x < Max(d.x, 0) + Max(d.w, 0), and likewise for y |
| LegacyPaint.ScreenCaptureUpdates.constructor | src/capture.rs:1285-1295 | the loop starts with an empty queue, not seeded, no resync owed |
| LegacyPaint.ScreenCaptureUpdates.NextUpdate | src/capture.rs:1485-1502 | cursor shapes go first, then the queue from its front, and only an empty queue takes a sample; the flags change with a sample only |
| LegacyPaint.ScreenCaptureUpdates.TakeSample | src/capture.rs:1866-1940 | the queue and both flags after a sample, overflow included; when seeded, not forced and with no resync owed the queued updates cover a pixel if and only if some dirty rect does, and otherwise the whole frame |
| LegacyPaint.ScreenCaptureUpdates.ClampAll | src/capture.rs:1878-1900 | the rects painted are the non-empty clamped ones, in order; by `ClampedExactly` they cover exactly the pixels of the dirty rects |
| LegacyPaint.ClampedExactly | src/capture.rs:1878-1900 | a pixel of the frame is painted if and only if some dirty rect has it, counted from its clamped origin |
| LegacyPaint.QueuedCovers | src/capture.rs:1866-1913 | the updates of a sample cover exactly those pixels, or the whole frame when the dirty rects are not used |
| LegacyPaint.ScreenCaptureUpdates.Cut | src/capture.rs:1907-1913 | the updates repaint exactly the pixels of the rects, and their number is the sum of the strip counts |
| LegacyPaint.FittingSampleSyncs | src/capture.rs:1866-1913 | with accurate dirty rects, a sample that fits the queue brings the client to the new frame |
| LegacyPaint.CaptureKeepsSynced | src/capture.rs:1866-1940 | every capture keeps the client in step and one capture settles a resync that is owed |
| LegacyPaint.PassKeepsSynced | src/capture.rs:1485-1940 | every pass of the loop does |
| LegacyPaint.ClientConverges | src/capture.rs:1485-1940 | over whole runs, whenever no resync is owed the client with the queued updates applied shows the last captured frame |
| LegacyPaint.FullFrameOverflows | src/capture.rs:1904-1934 | a whole-frame sample that does not fit leaves the queue empty and flips the resync flag |
| LegacyPaint.UnsyncedRun | src/capture.rs:1866-1940 | for every size and limit it does not fit, a run of two captures after which no resync is owed and the client shows something else |
| LegacyPaint.AlwaysSyncedExactly | src/capture.rs:1485-1940 | every run with accurate dirty rects keeps every client in step at every point if and only if the strips of a whole frame fit the queue |
| LegacyPaint.EightKTooLarge | src/capture.rs:1288-1292 | 7680 x 4320 takes 36 strips, more than the default limit |
| LegacyPaint.OversizedFrameNeverShown | src/capture.rs:1901-1934 | with whole frames only, a frame too large for the queue is never shown: every update sent, in every run, is a cursor shape |
| ResizeCell.UnpackPacked | src/capture.rs:97-103 | a size is width * 65536 + height, and unpacking undoes packing |
| ResizeCell.StepKeepsInv | src/capture.rs:153-203 | every atomic step of either side keeps the invariant of the cell |
| ResizeCell.TakesAreRequested | src/capture.rs:153-203 | in every run returns never outnumber requests and a returned size was requested or is the fresh cell's 0 x 0; with ordered stores it is that of the settled request or a newer one |
| ResizeCell.LastRequestNotLost | src/capture.rs:153-203 | at rest the cell is pending with the newest size, or the last take consumed the newest stamp and, with ordered stores, returned the newest size |
| ResizeCell.TakeReturnsLoadedExactly | src/capture.rs:182-203 | a take returns the request it found settled if and only if its size was the last visible one at the load and none became visible before the size was loaded |
| ResizeCell.TakeConsumesLoadedExactly | src/capture.rs:193-201 | the consumed stamp is the loaded one if and only if no other became visible before the compare-exchange |
| ResizeCell.LostExactly | src/capture.rs:153-203 | the newest size is lost if and only if a size became visible after the last take had loaded it |
| ResizeCell.NewerStampConsumed | src/capture.rs:194-202 | a run with ordered stores in which the stamp of a newer request is consumed |
| ResizeCell.RelaxedLosesRequest | src/capture.rs:153-161 | a run with the stores the other way round in which the only request is lost |
| ResizeCell.OnlySettledConsumed | src/capture.rs:185-201 | a consumed stamp has stood for the debounce time |
| ResizeCell.TakerSteps | src/capture.rs:185-203 | in every run: a stamp is loaded if one is pending, settled if and only if the clock has reached stamp + debounce (or the debounce time is 0), and consumed if and only if it is still the loaded one |
| ResizeCell.SettledIsTaken | src/capture.rs:185-203 | a call that begins at rest with a stamp that has stood for the debounce time, and during which no store becomes visible, takes the newest requested size and leaves nothing pending |
| ResizeCell.ConsumedWasMade | src/capture.rs:153-201 | the request whose stamp is consumed read the clock at least the debounce time before |
| BlankRecovery.EndStreakLaw | src/h264.rs:683-695 | the streak counters' meaning: the longest run that ends the history |
| BlankRecovery.LongestStreakLaw | src/h264.rs:688-689 | the high-water mark is the length of a streak that exists and none is longer |
| BlankRecovery.CountersLaw | src/h264.rs:681-709 | over every history of reports and resets each counter is the stated function of it, saturating at 64 bits |
| BlankRecovery.RttGate | src/h264.rs:827-835 | the evidence multiplier is between 1 and 4 whenever recovery is allowed |
| BlankRecovery.FiredInTime | src/h264.rs:745-816 | a verdict to recover comes after the arm delay and the retry interval, before the attempts are used up and never after a clean start |
| BlankRecovery.Gfx.constructor | src/h264.rs:1642-1643 | no connection and no drops at the start |
| BlankRecovery.Gfx.BuildServer | src/h264.rs:3140-3182 | a new connection starts a fresh detector and keeps the drop counter |
| BlankRecovery.Gfx.OnFrameAck | src/h264.rs:3326-3336 | the suspend sentinel suspends, any other ack counts |
| BlankRecovery.Gfx.OnQoeMetrics | src/h264.rs:3411-3458 | the new counters, the time of the last nonzero report and the clean latch |
| BlankRecovery.Gfx.DetectBlank | src/h264.rs:1845-1957 | the whole new state and the dispatched action of one capture |
| BlankRecovery.NextKeepsInv | src/h264.rs:1845-1957 | every input keeps the connection laws and the bound on drops |
| BlankRecovery.ConnectionLaws | src/h264.rs:681-816 | at every point of every run: counters as stated, the clean latch exactly when a long enough streak came with no attempt, attempts bounded, a retry interval apart and not before the arm delay |
| BlankRecovery.AttemptsNeedEvidence | src/h264.rs:730-816 | every action comes with acks flowing and no presenting streak; a first attempt only if the connection never presented and its last reports are all zero, so with positive thresholds a client without reports is left alone |
| BlankRecovery.DropCounts | src/h264.rs:1911-1950 | without an established connection the counter moves by the drops and nothing else |
| BlankRecovery.StormBounded | src/h264.rs:622-637 | the drop counter never passes a positive cap, and a stretch without an established connection drops at most cap connections, across reconnects |
| BlankRecovery.FieldsOfInputs | src/h264.rs:3140-3458 | at every point of every run each field that the detector reads is the stated function of the inputs and actions since the connection was made |
| BlankRecovery.FiresExactly | src/h264.rs:730-857 | when the detector fires, in plain numbers: evidence, times scaled by the round trip in 25ths from 25 to 100 ms, and gates |
| BlankRecovery.CaptureExactly | src/h264.rs:1845-1957 | which action attempt n gets -- reactivate then drop, or remap and at the last drop -- when a drop is withheld and the attempts are used up, and what an executed attempt resets |
| BlankRecovery.MustRecover | src/h264.rs:730-857 | in every run: a connection that never presented, whose last reports are enough zeros, with acks flowing, the delays over and the link below the limit, gets its first action, unless that is a drop at the storm cap |
| AckRing.AckTimer.constructor | src/h264.rs:3145-3149 | an empty ring and empty buckets |
| AckRing.AckTimer.Ship | src/h264.rs:2971-2975 | the ring holds the newest frame of every slot |
| AckRing.AckTimer.TimeFrame | src/h264.rs:3339-3357 | which acks are timed, and by which frame |
| AckRing.AckTimer.FoldSample | src/h264.rs:3362-3370 | rotation and fold of one sample into the buckets |
| AckRing.AckTimer.RecordSample | src/h264.rs:3358-3371 | buckets and delay after one more sample are those of the history with it |
| AckRing.AckTimer.OnFrameAck | src/h264.rs:3332-3372 | an ack adds one sample or none, and the delay is that of the whole history |
| AckRing.QueueDelayFold | src/h264.rs:109-113 | the delay is never negative and the new minimum never above the sample |
| AckRing.NewestIsNoOlder | src/h264.rs:3339-3354 | the slot of a shipped frame holds that frame or one that left later |
| AckRing.AckedFrameTimed | src/h264.rs:3339-3354 | the sample is the exact ship-to-ack time while the slot is the frame's own, and a lower bound on it once overwritten |
| AckRing.NewestLaw | src/h264.rs:3339-3340 | slot r of 128 stands for the last shipped frame whose id is r modulo 128, or none |
| AckRing.SlotIsOwnExactly | src/h264.rs:3339-3343 | a frame is timed exactly if and only if no later frame fell on its slot |
| AckRing.ExactWithin128 | src/h264.rs:91-93 | with consecutive ids: if and only if fewer than 128 frames were shipped after it |
| AckRing.BucketsLaw | src/h264.rs:3358-3371 | after any samples the two buckets hold the minima of adjacent stretches, the older of which reaches back at least one window |
| AckRing.DelayIsExcessOverWindow | src/h264.rs:95-113 | the delay is the sample minus the minimum of a suffix of the samples that includes all of the last 30 seconds and, for samples at most g apart, none that is 60 seconds and g old |
| AckRing.BucketStarts | src/h264.rs:3358-3366 | no bucket reaches back beyond its start, and the older one starts at most a window and g earlier |
| AckRing.PauseKeepsBase | src/h264.rs:3358-3371 | after a pause of any length the sample before it is still the base |
| AckRing.SuffixMin | src/h264.rs:105-113 | the smaller of the two bucket minima is the minimum of that suffix |
| AckRing.MinOfLaw | src/h264.rs:105-113 | that minimum is one of the samples and no sample is below it |
| Download.BuildPlan | src/file_promise.rs:474-481 | the plan cuts the file into consecutive non-empty chunks, chunk i at i times the chunk size and of that size but for the last, and as many as the file needs |
| Download.PlanLoopEnds | src/file_promise.rs:477-481 | the loop ends if and only if the chunk size is positive or the file empty |
| Download.ChunkInside | src/file_promise.rs:474-481 | every chunk lies in the file |
| Download.ChunksDisjoint | src/file_promise.rs:474-481 | chunks do not overlap |
| Download.ChunkOf | src/file_promise.rs:474-481 | every byte is in a chunk |
| Download.RouterStepKeepsInv | src/file_promise.rs:108-128 | below 2^32 - 1 registrations ids are unique and not 0, and the table holds exactly the waiting registrants |
| Download.ReplyReachesItsRegistrant | src/file_promise.rs:121-128 | a reply reaches the one task that registered its id and no other; an unexpected one changes nothing |
| Download.DownloadRouter.constructor | src/file_promise.rs:97-102 | an empty table and a counter at 0 |
| Download.DownloadRouter.Register | src/file_promise.rs:108-116 | the id is the counter's value, or 1 when that is 0, never 0, and new while registrations are few |
| Download.DownloadRouter.Deliver | src/file_promise.rs:121-128 | the waiter is removed from the table and told, if there is one |
| Download.RegisteredLaw | src/file_promise.rs:108-116 | a whole registration keeps the router's invariant and its id is that of no waiting task |
| Download.StepKeepsWindow | src/file_promise.rs:483-527 | every step keeps the window full but bounded and runs each chunk once |
| Download.SharedFile.constructor | src/file_promise.rs:457-467 | the file starts as zeros of the full length |
| Download.SharedFile.PWrite | src/file_promise.rs:545-553 | one positional write fails or puts some first part of the data in place |
| Download.SharedFile.WriteAll | src/file_promise.rs:549-562 | the write loop puts the whole reply in place or, when a write fails, a prefix of it, and touches nothing else |
| Download.WriteAtLaw | src/file_promise.rs:545-553 | a positional write byte by byte: the data at its place, the old bytes elsewhere, zeros in a gap |
| Download.WriteKeepsFile | src/file_promise.rs:545-561 | a positional write of any task, of any length and over any other's, keeps every byte of the file accounted for |
| Download.StepKeepsInv | src/file_promise.rs:443-563 | every step of tasks and router, and anything the peer may send, keeps what is in the file accounted for |
| Download.WindowBounded | src/file_promise.rs:483-527 | at most `max_parallel_chunks` tasks are in flight, exactly as many while the plan is not exhausted and the loop waits, and the chunks started are each in flight or finished, never both |
| Download.FileIsAssembled | src/file_promise.rs:443-563 | for any peer, any order and any window, a fetch that reports success has a file put together from the accepted replies, zero where none reaches |
| Download.SuccessMeansAnswered | src/file_promise.rs:483-563 | with a positive window success means that every chunk was run and answered with data that is not empty |
| Download.NeverStuck | src/file_promise.rs:483-563 | no run gets stuck before it is over: the fetch spawns, joins or ends, or waits for tasks each of which can go on without giving up unless its reply failed or was empty |
| Download.ErrorHasReason | src/file_promise.rs:500-527 | a fetch reports an error only if one of its tasks gave up |
| Download.OkExactly | src/file_promise.rs:443-563 | a fetch that reports success has the remote file if every accepted reply is a piece of the remote file at its chunk's place and the rest of the remote file is zero, and only if, unless overlapping replies contradict each other |
| Download.NotLongerConsistent | src/file_promise.rs:539-561 | replies no longer than asked never overlap |
| Download.FullRepliesSuffice | src/file_promise.rs:539-544 | right replies of at least the requested length make success mean an identical file |
| Download.HonestPeer | src/file_promise.rs:443-563 | with a peer that answers requests with right bytes of any number, success means an identical file if and only if the remote file is zero wherever replies fell short |
| Download.AnyReplySucceeds | src/file_promise.rs:539-563 | for every one-chunk file and every non-empty reply, a run that reports success with that reply in the file |
| Download.WrongLengthAccepted | src/file_promise.rs:540-544 | a reply that stops before the last non-zero byte, or runs past the end, is a wrong file reported as success |
| Download.EmptyWindowExactly | src/file_promise.rs:486-528 | with a window of 0 success means an identical file if and only if the remote file is all zeros |
| Download.EmptyWindowSucceedsAtOnce | src/file_promise.rs:486-528 | with a window of 0 success is reached in two steps from any start |
| Dib.Le32 | src/clipboard.rs:73-83 | reading back a little-endian word gives the value modulo 2^32 |
| Dib.HeaderBytes | src/clipboard.rs:72-83 | the forty header bytes, number by number as `WrittenNumbers` has them |
| Dib.PngOrTiffToDib | src/clipboard.rs:62-91 | the payload is the header and the pixels as B, G, R, A, at the places of `EncodedHeader` and `EncodedPixel` |
| Dib.AppendRow | src/clipboard.rs:177-186 | one row of 24 or 32 bits as R, G, B, A, opaque without alpha |
| Dib.DibToRgba | src/clipboard.rs:97-187 | the error or the picture for every byte string, as `OutcomeExactly` and `DecodedBytes` say in plain numbers; all row reads are in bounds |
| Dib.RowFits | src/clipboard.rs:174-177 | for every accepted payload each row read lies inside it |
| Dib.AcceptedExactly | src/clipboard.rs:97-172 | below 2^63 bytes, accepted are exactly the complete payloads of the four supported formats, so no overflow check turns one away |
| Dib.CheckedExactly | src/clipboard.rs:165-172 | the overflow check on the output size never fires, because a complete payload holds at least three bytes a pixel |
| Dib.FieldsAre | src/clipboard.rs:102-110 | the five numbers of a header, little-endian at bytes 0, 4, 8, 14 and 16, the sizes signed |
| Dib.OutcomeExactly | src/clipboard.rs:97-172 | in plain numbers, for every payload below 2^63 bytes: which check fails first, or the picture's size; rows of 24 bits padded to a multiple of 4, 12 or 16 mask bytes after a 40-byte header |
| Dib.DecodedPixel | src/clipboard.rs:174-187 | which stored bytes each output pixel comes from, for both row orders and any mask layout |
| Dib.DecodedBytes | src/clipboard.rs:139-187 | byte by byte in plain numbers: where pixel (row, col) is read from, bottom-up unless the height is negative, and that red and blue are exchanged |
| Dib.TwinIsMirror | src/clipboard.rs:137-175 | a payload and the one with negated height decode to row mirrors of each other |
| Dib.HeaderFields | src/clipboard.rs:72-83 | what the decoder reads from a written header |
| Dib.WrittenNumbers | src/clipboard.rs:72-83 | the numbers of a written header, little-endian: 40, the width, the height negated modulo 2^32, one plane, 32 bits, 0, the pixel bytes modulo 2^32, zeros |
| Dib.EncodedHeader | src/clipboard.rs:69-83 | a written payload begins with them and has 40 + 4wh bytes |
| Dib.EncodedPixel | src/clipboard.rs:85-89 | pixel p is at byte 40 + 4p, blue first |
| Dib.RoundTrip | src/clipboard.rs:62-187 | a written picture is read back with the same size and pixels |
| Dib.RoundTripExactly | src/clipboard.rs:62-187 | if and only if its sides are positive, the width is below 2^31 and the height at most 2^31 |
| LogRotation.Rotator.Open | src/logging.rs:282-296 | an existing live file is kept and its length counted, a missing one created |
| LogRotation.Rotator.MoveArchives | src/logging.rs:304-309 | the descending cascade moves every archive one place and drops the one past the last |
| LogRotation.Rotator.Rotate | src/logging.rs:301-322 | an empty live file and the newest `max_files` of the old ones, file m as file m + 1; none for `max_files` 0 |
| LogRotation.Rotator.Write | src/logging.rs:326-340 | the files after one event: rotated first if and only if the live file is not empty and would grow past `max_bytes`, and `written` stays the live length |
| LogRotation.Live | src/logging.rs:282-340 | any run of events and restarts of the rotator leaves the files that `Run` says |
| LogRotation.MovedOne | src/logging.rs:304-314 | after the cascade file m + 1 is what file m was |
| LogRotation.RunLaw | src/logging.rs:282-340 | after any run the files oldest to newest are a suffix of all events, all of them until `max_files` archives exist, no event is split, archives never exceed `max_files`, a file over the cap is one event, and no file was closed early |
| AudioGeneration.StepKeepsLoops | src/audio.rs:235-302 | every step keeps loop generations distinct, claimed and not in the future |
| AudioGeneration.AtMostOneActive | src/audio.rs:235-302 | at any moment at most one loop matches the shared generation |
| AudioGeneration.OwnerHoldsClaim | src/audio.rs:235-243 | the active loop's generation is the one its own backend holds |
| AudioGeneration.OnlyStartOrOwnerRetires | src/audio.rs:293-302 | exactly a start, or the stop of the backend that spawned it, retires the active loop; a stale backend's stop never does |
| AudioGeneration.StopSilences | src/audio.rs:293-302 | after a stop that moved the generation no loop matches until the next start |
| AudioGeneration.SupersededNeverWorks | src/audio.rs:490-525 | a superseded loop finishes at most the iteration it is in |
| AudioGeneration.AccessExactly | src/audio.rs:235-302 | in every run: a start adds one and keeps the value, a stop adds one if the value is still its own, a check lets the loop work if and only if the value is the one it was spawned with |
| AudioGeneration.StartActivates | src/audio.rs:235-291 | a start that no other start overtakes has spawned the active loop, whatever stops came in between |
| AudioGeneration.ActiveLoopWorks | src/audio.rs:490-525 | an active loop stays active, and every check lets it work, until a start or the stop of its own backend |

## Left out

- Avc444.SplitYuv444: odd sizes are excluded, as the source's debug assertion does; the source fills U and V side by side in one loop, the model one plane after the other.
- Nal.ReframeUndoesAnnexB: the converse is stated for access units below 4 GiB, since longer units lose their length in the 32-bit prefix.
- AuthGuard.GuardRefinesHistory: runs that reach the hard cap of tracked addresses are excluded, because the cap forgets live state by design; the branch itself is modelled in `EvictStale`.
- AuthGuard.AuthGuardCore.RecordOutcome: the clock is unbounded; the source stops when `now + cooldown` leaves the clock's range, which needs a max_cooldown that does (`EscalatedCooldown` never exceeds it).
- AuthGuard.Serve: runs that reach the hard cap are excluded, as above.
- LegacyPaint.ClientConverges: one frame size, accurate dirty rects and a whole frame's strips within the queue are hypotheses; dirty rects are given in whole pixels, after the source's rounding of floating-point values.
- ResizeCell.TakesAreRequested: stores may be delayed and reordered, but a load reads what is visible when it runs; a load that takes effect early is covered only as a store that becomes visible late.
- BlankRecovery.FiredInTime: the floating-point multiplier is exact, in 25ths; rounding of scaled durations is not modelled.
- BlankRecovery.StormBounded: the load and store of the shared drop counter are one step; the attempt is counted when it is dispatched, and whether the drop reaches the client is not modelled.
- AckRing.AckTimer.OnFrameAck: samples are integers in nanoseconds, an infinite minimum is `None`; floating-point milliseconds are not modelled.
- Download.OkExactly: when replies longer than asked contradict each other on a byte, the last write wins; which one that is depends on the order and is not stated.
- Download.BuildPlan: chunk size 0 is excluded for a non-empty file, because the loop then never ends.
- Download.FileIsAssembled: the announced size is that of the remote file.
- Download.RouterStepKeepsInv: stated for fewer than 2^32 - 1 registrations; after that ids repeat.
- Dib.RoundTripExactly: negating a height of 2^31 wraps, as in an optimised build; a debug build stops there.
- LogRotation.RunLaw: writes are whole, the file system does not fail, and limits do not change across restarts.
- AudioGeneration.AtMostOneActive: the 64-bit generation counter does not wrap.
- The size request before a download, its cancellation by the user, and directory entries.
- Building and feeding the decompression session of the camera decoder.
- PNG and TIFF coding around the bitmap payload.
- The handover between the legacy path and EGFX, throttling, keyframe requests and pipeline depth.
- Whether zero render times mean a black screen: a heuristic about the client.
- The floating-point rate controllers, statistics, environment parsing, audit text, keyboard tables.
- Foreign frameworks (ScreenCaptureKit, VideoToolbox, PAM, pasteboard), sockets and the vendored RDP crates: their results are inputs.
