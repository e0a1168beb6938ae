# Console read/write client calls of kernel32 (ReactOS), modelled in Dafny

This project models the client side of the console read and write calls
in ReactOS kernel32 (`dll/win32/kernel32/client/console/readwrite.c`).
These calls marshal a caller's buffer into requests for the console
server (CSRSS). They send the requests with `CsrClientCallServer`. They
then turn the two status values of each reply into a BOOL result, a count
stored through the caller's pointer, and a last-error value.

The model has three parts:

- **The chunked write drivers.** These are `IntWriteConsole`,
  `IntWriteConsoleOutputCharacter` and `WriteConsoleOutputAttribute`.
  Each is an imperative method with the source's `while` loop. All three
  loops update the remaining count and the buffer offset. `IntWriteConsole`
  and `IntWriteConsoleOutputCharacter` also add each reply's count to a
  DWORD accumulator; `WriteConsoleOutputAttribute` has none, since it
  stores `nLength` before its loop. `IntWriteConsoleOutputCharacter` and
  `WriteConsoleOutputAttribute` also move the request's `Coord`;
  `IntWriteConsole` has no `Coord`.
  - Each method is proved equal to a pair of specification functions:
    how the loop ends (`…Exit`) and the calls it makes (`…Calls`). The
    loop invariant is a ghost predicate (`…Reaches`) that unfolds the
    specification one call at a time.
  - Lemmas about the specification functions state what the source
    promises:
    - frame bounds;
    - message and allocation sizes;
    - the frames tiling the buffer;
    - the pending retry;
    - how the cursor follows the server;
    - the counts reported;
    - when and how the call fails;
    - the number of calls against an always-successful server.
- **The single-shot helpers.** These are `IntReadConsole`,
  `IntGetConsoleInput`, `IntReadConsoleOutput`,
  `IntReadConsoleOutputCode`, `IntWriteConsoleInput`,
  `IntWriteConsoleOutput`, `IntFillConsoleOutputCharacter` and
  `FillConsoleOutputAttribute`. Each is a straight-line method. Its
  contract gives:
  - the argument checks;
  - the request it sends;
  - which status decides the result;
  - what it stores in each out-parameter, on every path.
- **The arithmetic.** This covers:
  - the element size from `bUnicode` and from the `CodeType` switch;
  - the `max(sizeof(CSR_API_MESSAGE), header + min(n, MAX/size) * size)` message and allocation sizes;
  - the 32-bit capture and copy sizes;
  - the region extent `Right - Left + 1`;
  - the WORD and CHAR casts of the fill requests.

Every heap request and capture buffer is tracked by a ghost ledger,
`Ownership`. Every method that allocates ensures that the ledger is
balanced on each path that returns: whatever was acquired was released exactly once.

The server is an oracle. A chunk loop reads a script of replies, one per
call. Each reply holds:

- the status `CsrClientCallServer` returned;
- the status in the message;
- the reported count;
- the `EndCoord`.

A single-shot call takes one reply record. Allocation success is a
boolean input. When the script runs out while a loop still runs, the
model ends the run as `Blocked`; in the source the caller would still be
inside the loop. In `IntWriteConsoleOutputCharacter` a server count larger
than what remains underflows a DWORD. The model ends that run as
`Overrun`.

Behaviour worth knowing:

- Only `IntWriteConsoleOutputCharacter` advances by the server's
  reported count. `IntWriteConsole` and `WriteConsoleOutputAttribute`
  advance by the frame they sent.
- On a failed frame, `IntWriteConsole` and
  `IntWriteConsoleOutputCharacter` store no count.
  `WriteConsoleOutputAttribute` stores `nLength` before its loop, so the
  count it leaves is `nLength` on every path after the allocation.
- The read helpers copy as much as the server reports. They do not check
  it against the caller's buffer.
- `IntGetConsoleInput` stores the count and copies the records when
  *either* status succeeds (`||`). Its result is `InputsRead > 0` in read
  mode, whatever the statuses were, and NT_SUCCESS of the message status
  in peek mode.
  `IntReadConsoleOutput`, `IntWriteConsoleInput` and
  `IntWriteConsoleOutput` ignore the value `CsrClientCallServer` returns.

## Model

| member | source | states |
|---|---|---|
| ConsoleTypes.CharSize | dll/win32/kernel32/client/console/readwrite.c:43 | The element size is 2 exactly when bUnicode is set, and 1 otherwise (also lines 438 and 662). |
| ConsoleTypes.DwordProduct | dll/win32/kernel32/client/console/readwrite.c:44 | A `count * size` byte size in 32-bit arithmetic. It equals the true product whenever that fits in a DWORD (also lines 123, 363, 400 and 517). |
| ConsoleTypes.AddDwordThenSum | dll/win32/kernel32/client/console/readwrite.c:485 | Adding into the DWORD `Written` and then adding the rest gives the DWORD sum of all the counts. |
| ConsoleTypes.AddDword | dll/win32/kernel32/client/console/readwrite.c:485 | `Written += count` wraps modulo 2^32 at most once. A sum that wrapped is smaller than either addend; otherwise it is the true sum (also line 706). |
| ConsoleTypes.Ownership.Release | dll/win32/kernel32/client/console/readwrite.c:478 | A release is possible only while something is held. So a second free of the same request cannot be modelled. |
| CsrTransport.FailureStatus | dll/win32/kernel32/client/console/readwrite.c:476-479 | The status handed to BaseSetLastNTError by the double check is a failure status. It is the transport status when that failed, and otherwise the message status. |
| CsrTransport.CallFailed | dll/win32/kernel32/client/console/readwrite.c:476 | A call goes through only when both the transport status and the message status succeed. A STATUS_PENDING transport is not a failure by itself: the call then fails exactly when the message status fails (also lines 78, 393, 697, 750, 1250, 1336). |
| CsrTransport.StatusFailure | dll/win32/kernel32/client/console/readwrite.c:697-701 | A failed call returns FALSE, stores no count, and sets the failing status as the last error. |
| CsrTransport.FrameLimits.Capacity | dll/win32/kernel32/client/console/readwrite.c:457 | `MAX / size` is the largest element count whose bytes fit one frame. It is at least 1 and survives the USHORT/WORD cast. |
| CsrTransport.FrameLimits.AllocationSize | dll/win32/kernel32/client/console/readwrite.c:439-443 | The heap request is the call size of the largest frame, `max(sizeof(CSR_API_MESSAGE), header + min(n, MAX/size) * size)`. It never exceeds one full frame. |
| CsrTransport.FrameLimits.CallSize | dll/win32/kernel32/client/console/readwrite.c:467-468 | The message size passed for a frame is at least sizeof(CSR_API_MESSAGE) and at least header plus payload. It is one of the two. |
| CsrTransport.FrameFitsAllocation | dll/win32/kernel32/client/console/readwrite.c:459-468 | Any frame no longer than the write and the capacity fits the heap request. Its payload fits one frame. |
| CsrTransport.FrameCountStep | dll/win32/kernel32/client/console/readwrite.c:452-457 | A write of n elements takes one frame plus the frames for what remains after `min(n, cap)`. |
| WriteConsoleDriver.IntWriteConsole | dll/win32/kernel32/client/console/readwrite.c:422-495 | The loop's exit and call trace equal the specification functions. The heap request is acquired once and released once on every return, and is still held while blocked. |
| WriteConsoleDriver.ReplyKinds | dll/win32/kernel32/client/console/readwrite.c:470-481 | Every reply is exactly one of pending (wait and resend), accepted (move on) or fatal (free and return FALSE). A pending transport status is a success code, so the pending test must come before the two-level check. |
| WriteConsoleDriver.WriteCallsFollowReplies | dll/win32/kernel32/client/console/readwrite.c:464-468 | Call i is answered by reply i, with no reply skipped. The run blocks only once every reply is used. |
| WriteConsoleDriver.WriteCallsShaped | dll/win32/kernel32/client/console/readwrite.c:457-468 | Every frame carries 1 to `MAX/CharSize` characters from inside the buffer. Its message size is `max(msg, header + nChars*CharSize)` and fits the heap request. |
| WriteConsoleDriver.WriteDeliversBuffer | dll/win32/kernel32/client/console/readwrite.c:457-484 | The accepted frames, concatenated in order, are a prefix of the remaining buffer. On TRUE they are exactly the remaining buffer. |
| WriteConsoleDriver.WriteReportsServerCounts | dll/win32/kernel32/client/console/readwrite.c:485-491 | On TRUE the stored count is Written plus the server's NrCharactersWritten over the accepted frames, modulo 2^32. |
| WriteConsoleDriver.WritePendingResends | dll/win32/kernel32/client/console/readwrite.c:470-475 | After a STATUS_PENDING reply the next call re-sends the same span and message size. Nothing has advanced. |
| WriteConsoleDriver.WriteNeverReturnsPending | dll/win32/kernel32/client/console/readwrite.c:470-475 | No run ends at a pending reply. Only the script running out stops the retry. |
| WriteConsoleDriver.WriteFailsOnlyOnFailedCall | dll/win32/kernel32/client/console/readwrite.c:476-481 | FALSE comes only from a failed last call. It carries that call's failure and no count. TRUE sets no error, and only the last call can have failed. |
| WriteConsoleDriver.WriteFrameCount | dll/win32/kernel32/client/console/readwrite.c:452-486 | Against a server that accepts every frame, the write returns TRUE after exactly `ceil(n / cap)` calls. |
| WriteConsoleDriver.WriteConsoleCallsServer | dll/win32/kernel32/client/console/readwrite.c:439-452 | The server is called exactly when the allocation succeeded and the buffer is not empty. A zero-length write returns TRUE with count 0. |
| WriteConsoleDriver.WriteConsoleDeliversBuffer | dll/win32/kernel32/client/console/readwrite.c:422-495 | From the start, TRUE implies the request was allocated and the accepted frames are exactly the buffer. The count is the DWORD sum of the server's counts. |
| WriteOutputCharacterDriver.FrameLimit | dll/win32/kernel32/client/console/readwrite.c:664 | nChars is `min(nLength, MAX/CharSize)`: at most both, and positive when nLength is. |
| WriteOutputCharacterDriver.IntWriteConsoleOutputCharacter | dll/win32/kernel32/client/console/readwrite.c:646-719 | The loop's exit and call trace equal the specification functions, with the heap request balanced on every return. |
| WriteOutputCharacterDriver.CharCallsShaped | dll/win32/kernel32/client/console/readwrite.c:686-695 | Every frame carries 1 to `min(nLength, MAX/CharSize)` characters from inside the buffer, in a message that fits the heap request. |
| WriteOutputCharacterDriver.CharCallsFollowReplies | dll/win32/kernel32/client/console/readwrite.c:691-695 | Call i is answered by reply i. The run blocks only once every reply is used. |
| WriteOutputCharacterDriver.CharCursorFollowsServer | dll/win32/kernel32/client/console/readwrite.c:704-708 | Each call starts where the previous reported NrCharactersWritten left lpCharacter, at the previous EndCoord. Only the last call can have failed. |
| WriteOutputCharacterDriver.CharReportsCoverBuffer | dll/win32/kernel32/client/console/readwrite.c:680-714 | On TRUE the server's reported counts add up to exactly the characters that remained, and no error is set. |
| WriteOutputCharacterDriver.CharReportsServerCounts | dll/win32/kernel32/client/console/readwrite.c:706-714 | On TRUE the stored count is Written plus the reported counts, modulo 2^32. |
| WriteOutputCharacterDriver.CharFailureReported | dll/win32/kernel32/client/console/readwrite.c:697-702 | FALSE comes only from a failed last call. It carries that call's failure status and stores no count. |
| WriteOutputCharacterDriver.CharHonestServerNoOverrun | dll/win32/kernel32/client/console/readwrite.c:704 | A server that never reports more than the frame it was sent never causes the DWORD underflow of nLength. |
| WriteOutputCharacterDriver.CharFrameCount | dll/win32/kernel32/client/console/readwrite.c:680-709 | Against a server that succeeds on every call and writes each frame whole, the write returns TRUE after exactly `ceil(n / nChars)` calls. |
| WriteOutputCharacterDriver.CharProgressFinishes | dll/win32/kernel32/client/console/readwrite.c:680-709 | Against a server that succeeds on every call and writes between one character and the whole frame each time, the write returns TRUE given one reply per character. |
| WriteOutputCharacterDriver.OutputCharacterCountIsLength | dll/win32/kernel32/client/console/readwrite.c:646-719 | From the start, TRUE stores exactly nLength and sets no error. |
| WriteOutputAttributeDriver.WriteConsoleOutputAttribute | dll/win32/kernel32/client/console/readwrite.c:1208-1264 | The loop's exit and call trace equal the specification functions, with the heap request balanced on every return. |
| WriteOutputAttributeDriver.AttrCallsFollowReplies | dll/win32/kernel32/client/console/readwrite.c:1244-1248 | Call i is answered by reply i. The run blocks only once every reply is used. |
| WriteOutputAttributeDriver.AttrCallsShaped | dll/win32/kernel32/client/console/readwrite.c:1239-1248 | Every frame carries 1 to `MAX_ATTRIB/sizeof(WORD)` attributes from inside the buffer. Its message is `max(msg, header + Size*2)` and fits the allocation at lines 1221-1225. |
| WriteOutputAttributeDriver.AttrFramesFollowCursor | dll/win32/kernel32/client/console/readwrite.c:1256-1258 | Each frame starts right after the previous one (`lpAttribute += Size`), at the previous reply's EndCoord. Only the last call can have failed. |
| WriteOutputAttributeDriver.AttrFramesCoverBuffer | dll/win32/kernel32/client/console/readwrite.c:1237-1263 | On TRUE the frame sizes add up to exactly the attributes that remained. |
| WriteOutputAttributeDriver.AttrCountStoredUpFront | dll/win32/kernel32/client/console/readwrite.c:1235-1255 | Every return after the allocation carries count nLength, whatever the outcome. FALSE comes only from a failed last call, with its failure status. No Overrun is possible. |
| WriteOutputAttributeDriver.AttrFrameCount | dll/win32/kernel32/client/console/readwrite.c:1237-1259 | With no failed reply, the write returns TRUE after exactly `ceil(n / cap)` calls. |
| WriteOutputAttributeDriver.OutputAttributeReportsLength | dll/win32/kernel32/client/console/readwrite.c:1221-1264 | Without the heap request: NoMemory and no call. With it: every return stores nLength, and TRUE has sent every attribute once. |
| ConsoleRegions.BufferBytesExact | dll/win32/kernel32/client/console/readwrite.c:265 | For non-negative SHORT dimensions, `X * Y * sizeof(CHAR_INFO)` never wraps in 32 bits (also line 594). |
| ConsoleRegions.BufferBytes | dll/win32/kernel32/client/console/readwrite.c:265 | The capture size is a whole number of CHAR_INFO records, and exactly `X * Y * sizeof(CHAR_INFO)` whenever that fits in a DWORD (also line 594). |
| ConsoleRegions.RegionExtent | dll/win32/kernel32/client/console/readwrite.c:302-305 | `hi - lo + 1` in a DWORD is the cell count when lo <= hi + 1. It is close to 2^32 when the bounds are inverted by more. |
| ConsoleRegions.RegionBytes | dll/win32/kernel32/client/console/readwrite.c:302-308 | The copy size is a whole number of CHAR_INFO records even after wrapping modulo 2^32. It is 0 when either extent is 0. |
| ConsoleRegions.RegionBytesOfProperRect | dll/win32/kernel32/client/console/readwrite.c:302-308 | For a proper rectangle the copy is 4 bytes per cell, modulo 2^32, and exactly that when it fits. |
| ConsoleRegions.EmptyRegionCopiesNothing | dll/win32/kernel32/client/console/readwrite.c:302-308 | A region with no columns or no rows copies 0 bytes. |
| ConsoleRegions.InvertedRegionWraps | dll/win32/kernel32/client/console/readwrite.c:302-308 | A one-row region with d > 0 columns missing (Right = Left - 1 - d) has SizeX 2^32 - d and copies 2^32 - 4d bytes, never less than 2^32 - 4 * 0xFFFF: inverted bounds ask for a copy of nearly 4 GiB, not an empty one. |
| ConsoleReadCalls.IntReadConsole | dll/win32/kernel32/client/console/readwrite.c:27-99 | Allocation failure gives NoMemory with no call. The request carries `n*CharSize` bytes and `(WORD)n`. A valid control block pre-sets the initial characters and the wake-up mask. TRUE happens exactly when both statuses succeed; it stores NrCharactersRead, copies `NrCharactersRead*CharSize` bytes and returns ControlKeyState. A failure stores nothing. The capture buffer is freed once. |
| ConsoleReadCalls.IntGetConsoleInput | dll/win32/kernel32/client/console/readwrite.c:102-243 | A NULL buffer gives ERROR_INVALID_PARAMETER with no allocation. Read mode returns `InputsRead > 0`; peek mode returns NT_SUCCESS of the message status. If either status succeeded, the count is InputsRead or Length and that many records are copied. Otherwise the count is 0 and the message status is the last error. |
| ConsoleReadCalls.EitherSucceeded | dll/win32/kernel32/client/console/readwrite.c:182 | The test passes whenever the two-level check of the other calls would. It also passes when exactly one status failed, and when it does not pass the message status has failed (also line 213). |
| ConsoleReadCalls.IntReadConsoleOutput | dll/win32/kernel32/client/console/readwrite.c:245-326 | A NULL buffer gives ERROR_INVALID_PARAMETER with no allocation. The capture is `X*Y*sizeof(CHAR_INFO)`. Only the message status decides the result. Success copies RegionBytes of the returned region. The region is written back on both paths. |
| ConsoleReadCalls.CodeSize | dll/win32/kernel32/client/console/readwrite.c:345-362 | CODE_ASCII has size 1, CODE_UNICODE and CODE_ATTRIBUTE have size 2, and every other code type has none. |
| ConsoleReadCalls.IntReadConsoleOutputCode | dll/win32/kernel32/client/console/readwrite.c:328-416 | An unknown CodeType fails with ERROR_INVALID_PARAMETER before any allocation. The capture is `nLength*CodeSize`. A failure stores nothing. TRUE stores CodesRead and copies `CodesRead*CodeSize` bytes. The capture buffer is freed once. |
| ConsoleWriteCalls.IntWriteConsoleInput | dll/win32/kernel32/client/console/readwrite.c:498-571 | A NULL buffer gives ERROR_INVALID_PARAMETER with no allocation. The capture is `nLength*sizeof(INPUT_RECORD)`. TRUE happens exactly when the message status succeeds, and stores the returned Length. Failure stores 0 and sets the status. |
| ConsoleWriteCalls.IntWriteConsoleOutput | dll/win32/kernel32/client/console/readwrite.c:574-643 | A NULL buffer or region gives ERROR_INVALID_PARAMETER with no allocation. The capture is `Y*X*sizeof(CHAR_INFO)`. The result is NT_SUCCESS of the message status, with no count. The region is written back whenever the call was made. |
| ConsoleWriteCalls.FillLength | dll/win32/kernel32/client/console/readwrite.c:743 | `(WORD)nLength` equals nLength exactly when nLength < 2^16. Otherwise at least 2^16 cells are dropped. |
| ConsoleWriteCalls.FillLengthWraps | dll/win32/kernel32/client/console/readwrite.c:743 | The cell count sent is periodic in nLength with period 2^16, so a fill of exactly 2^16 cells asks the server for none. |
| ConsoleWriteCalls.AttributeByte | dll/win32/kernel32/client/console/readwrite.c:1328 | `(CHAR)wAttribute` is a signed byte congruent to the attribute modulo 256. It equals the attribute below 0x80. |
| ConsoleWriteCalls.AttributeHighByteDropped | dll/win32/kernel32/client/console/readwrite.c:1328 | The cast keeps only the low byte: two attributes with the same low byte send the same value, so the COMMON_LVB_* flags in the high byte never reach the server. |
| ConsoleWriteCalls.IntFillConsoleOutputCharacter | dll/win32/kernel32/client/console/readwrite.c:722-762 | The request carries the character, position and `(WORD)nLength`. TRUE happens exactly when both statuses succeed, and stores the server's NrCharactersWritten. A failure stores nothing. |
| ConsoleWriteCalls.FillConsoleOutputAttribute | dll/win32/kernel32/client/console/readwrite.c:1316-1346 | The request carries `(CHAR)wAttribute`, Coord and `(WORD)nLength`. TRUE happens exactly when both statuses succeed, and stores the caller's nLength, not a server count. A failure stores nothing. |

## Left out

- `CsrClientCallServer`, `CsrAllocateCaptureBuffer`, `CsrAllocateMessagePointer`, `CsrCaptureMessageBuffer`, `CsrFreeCaptureBuffer`, `RtlAllocateHeap` and `RtlFreeHeap` are calls into code outside this file. The server is a script of replies, and each allocation is a boolean input. Freeing is the ghost `Ownership` ledger.
- The server's own semantics are not modelled: how it chooses counts, EndCoord, regions and statuses, line editing, wake-up masks and screen contents. A reply may carry any values.
- The WaitForSingleObject/CloseHandle on `UnpauseEvent` before a pending retry is operating-system synchronisation. It is a no-op before the retry. Retries are bounded by the finite reply script, which ends a run as `Blocked`.
- The operating system's last-error slot is not modelled. SetLastError and BaseSetLastNTError are the `lastError` field of the outcome. BaseSetLastNTError's translation to a Win32 code is not modelled, so the field keeps the NT status. DPRINT output is dropped.
- Byte copies (`memcpy`, `RtlCopyMemory`) and pointer arithmetic are not modelled byte by byte. The chunk loops record the span `(offset, length)` of the caller's buffer each call copies. `WriteConsoleDriver.Payload` gives its elements. The single-shot helpers report the byte size of each copy. The contents the server returns are not modelled.
- The sizes in the CSR message definitions are not part of this model: sizeof(CSR_API_MESSAGE), CSR_API_MESSAGE_HEADER_SIZE and CSRSS_MAX_*. They are the parameters of `FrameLimits`. `Valid()` requires a frame payload of 2 to 0xFFFF bytes, as the USHORT/WORD casts of the frame size need.
- The numeric values of CODE_ASCII, CODE_UNICODE and CODE_ATTRIBUTE are not part of this model. `CodeType` names the three and carries any other USHORT as `CodeOther`.
- NULL count pointers (`lpNumberOfCharsWritten` and the others) only suppress the store. Every outcome reports the value that would be stored.
- `IntReadConsoleOutput`: a NULL `lpReadRegion` is not modelled. The source reads `*lpReadRegion` without a NULL check (readwrite.c:288) and writes it back (line 318), so a NULL pointer is a dereference there; the model's `readRegion` is always a region.
- `IntGetConsoleInput` models `bRead` as a boolean (`bRead == TRUE`). A BOOL other than 0 and 1 would take the peek path. Also left out: the read-mode preset of InputsRead and the request fields that are dead after the call, such as the ReadCoord updated after IntReadConsoleOutputCode's call.
- `IntWriteConsoleOutputCharacter`: a server count above the remaining nLength ends the run as `Overrun`. The source would underflow the DWORD and read past the caller's buffer.
- The A/W wrappers (`ReadConsoleA`/`W`, `WriteConsoleOutputCharacterA`/`W` and the others) forward arguments and have no logic. The `ReadConsoleInputEx` stubs are also left out.
- The commented-out loop in IntReadConsoleOutputCode and the commented-out block in IntGetConsoleInput are not live code.
- Pointer widths are 32-bit: `size_t` products such as `sizeof(CHAR_INFO) * SizeX * SizeY` are taken modulo 2^32, as on x86.
- Handles, the console handle and the `Unicode` flag are copied into requests unchanged. Only the fields the contracts speak about are recorded in the request datatypes.
