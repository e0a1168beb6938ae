/** The single-shot read helpers: each validates its arguments, allocates
    a capture buffer, makes one CsrClientCallServer call, copies the reply
    into the caller's buffer and out-parameters, frees the capture buffer
    and returns a BOOL. The capture buffer is tracked by a ghost ledger;
    the server is one scripted reply. */
module ConsoleReadCalls {
  import opened ConsoleTypes
  import opened CsrTransport
  import opened ConsoleRegions

  /** The fields of CONSOLE_READCONSOLE_CONTROL the client reads. */
  datatype ReadControl = ReadControl(nLength: Dword, nInitialChars: Dword, ctrlWakeupMask: Dword)

  /** The control block is used only when present and its nLength is
      sizeof(CONSOLE_READCONSOLE_CONTROL). */
  predicate ControlApplies(control: Option<ReadControl>)
  {
    control.Some? && control.value.nLength == SIZEOF_READCONSOLE_CONTROL
  }

  /** The request sent: capture size in bytes, NrCharactersToRead, the
      NrCharactersRead and CtrlWakeupMask the client pre-sets, and how many
      bytes of the caller's buffer it copies in as initial characters. */
  datatype ReadConsoleRequest = ReadConsoleRequest(bufferSize: Dword, charsToRead: Word, charsRead: Dword,
                                                   ctrlWakeupMask: Dword, initialBytes: Dword)

  /** The reply: the two statuses, NrCharactersRead and ControlKeyState. */
  datatype ReadConsoleReply = ReadConsoleReply(transport: NtStatus, status: NtStatus, charsRead: Dword,
                                               controlKeyState: Dword)

  /** IntReadConsole. `sent` is the request (None when the server is not
      called), `copiedBytes` the size of the copy back into lpBuffer, and
      `controlKeyState` the value stored into pInputControl (None when none
      is stored). */
  method IntReadConsole(nToRead: Dword, unicode: bool, control: Option<ReadControl>, captureOk: bool,
                        reply: ReadConsoleReply)
    returns (outcome: Outcome, sent: Option<ReadConsoleRequest>, copiedBytes: Dword,
             controlKeyState: Option<Dword>, ghost own: Ownership)
    ensures own.acquired == (if captureOk then 1 else 0) && own.Balanced()
    ensures sent.Some? <==> captureOk
    ensures !captureOk ==> outcome == NoMemory && copiedBytes == 0 && controlKeyState == None
    ensures sent.Some? ==>
      && sent.value.bufferSize == DwordProduct(nToRead, CharSize(unicode))
      && sent.value.charsToRead == nToRead % WORD_MODULUS
      && (ControlApplies(control) ==>
            && sent.value.charsRead == control.value.nInitialChars
            && sent.value.ctrlWakeupMask == control.value.ctrlWakeupMask
            && sent.value.initialBytes == DwordProduct(control.value.nInitialChars, SIZEOF_WCHAR))
      && (!ControlApplies(control) ==>
            sent.value.charsRead == 0 && sent.value.ctrlWakeupMask == 0 && sent.value.initialBytes == 0)
    ensures outcome.ok <==> captureOk && !CallFailed(reply.transport, reply.status)
    ensures captureOk && CallFailed(reply.transport, reply.status) ==>
      outcome == StatusFailure(reply.transport, reply.status) && copiedBytes == 0 && controlKeyState == None
    ensures outcome.ok ==>
      && outcome == Outcome(true, Some(reply.charsRead), None)
      && copiedBytes == DwordProduct(reply.charsRead, CharSize(unicode))
      && (controlKeyState.Some? <==> ControlApplies(control))
      && (ControlApplies(control) ==> controlKeyState == Some(reply.controlKeyState))
  {
    var charSize := CharSize(unicode);
    var bufferSize := DwordProduct(nToRead, charSize);
    own := Ownership(0, 0);
    sent := None;
    copiedBytes := 0;
    controlKeyState := None;
    if !captureOk {
      outcome := NoMemory;
      return;
    }
    own := own.Acquire();
    var request := ReadConsoleRequest(bufferSize, nToRead % WORD_MODULUS, 0, 0, 0);
    if ControlApplies(control) {
      var c := control.value;
      request := request.(charsRead := c.nInitialChars,
                          initialBytes := DwordProduct(c.nInitialChars, SIZEOF_WCHAR),
                          ctrlWakeupMask := c.ctrlWakeupMask);
    }
    sent := Some(request);
    if CallFailed(reply.transport, reply.status) {
      own := own.Release();
      outcome := StatusFailure(reply.transport, reply.status);
      return;
    }
    copiedBytes := DwordProduct(reply.charsRead, charSize);
    if ControlApplies(control) {
      controlKeyState := Some(reply.controlKeyState);
    }
    own := own.Release();
    outcome := Outcome(true, Some(reply.charsRead), None);
  }

  /** The request sent: capture size in bytes, bRead and Length. */
  datatype GetInputRequest = GetInputRequest(captureBytes: Dword, readMode: bool, length: Dword)

  /** The reply: the two statuses and the InputsRead and Length fields as
      the server leaves them. */
  datatype GetInputReply = GetInputReply(transport: NtStatus, status: NtStatus, inputsRead: Dword, length: Dword)

  /** The success test both modes use: `NT_SUCCESS(Status) ||
      NT_SUCCESS(ApiMessage.Status)`, true when either status succeeds. It
      is weaker than the two-level check of the other calls: it also passes
      a reply in which exactly one of the two statuses failed. */
  predicate EitherSucceeded(reply: GetInputReply): (passed: bool)
    ensures !CallFailed(reply.transport, reply.status) ==> passed
    ensures passed && CallFailed(reply.transport, reply.status) ==>
      NtSuccess(reply.transport) != NtSuccess(reply.status)
    ensures !passed ==> !NtSuccess(reply.status)
  {
    NtSuccess(reply.transport) || NtSuccess(reply.status)
  }

  /** IntGetConsoleInput, in read mode (`bRead == TRUE`, ReadConsoleInput)
      or peek mode (PeekConsoleInput). `bufferPresent` is lpBuffer != NULL;
      `copiedBytes` is the size of the copy into lpBuffer. */
  method IntGetConsoleInput(bufferPresent: bool, readMode: bool, nLength: Dword, unicode: bool, captureOk: bool,
                            reply: GetInputReply)
    returns (outcome: Outcome, sent: Option<GetInputRequest>, copiedBytes: Dword, ghost own: Ownership)
    ensures own.acquired == (if bufferPresent && captureOk then 1 else 0) && own.Balanced()
    ensures sent.Some? <==> bufferPresent && captureOk
    ensures !bufferPresent ==> outcome == InvalidParameter && copiedBytes == 0
    ensures bufferPresent && !captureOk ==> outcome == NoMemory && copiedBytes == 0
    ensures sent.Some? ==> sent.value == GetInputRequest(DwordProduct(nLength, SIZEOF_INPUT_RECORD), readMode, nLength)
    ensures sent.Some? && readMode ==> outcome.ok == (reply.inputsRead > 0)
    ensures sent.Some? && !readMode ==> outcome.ok == NtSuccess(reply.status)
    ensures sent.Some? && EitherSucceeded(reply) ==>
      var n := if readMode then reply.inputsRead else reply.length;
      && outcome.count == Some(n)
      && outcome.lastError == None
      && copiedBytes == DwordProduct(n, SIZEOF_INPUT_RECORD)
    ensures sent.Some? && !EitherSucceeded(reply) ==>
      && outcome.count == Some(0)
      && outcome.lastError == Some(NtError(reply.status))
      && copiedBytes == 0
  {
    own := Ownership(0, 0);
    sent := None;
    copiedBytes := 0;
    if !bufferPresent {
      outcome := InvalidParameter;
      return;
    }
    var size := DwordProduct(nLength, SIZEOF_INPUT_RECORD);
    if !captureOk {
      outcome := NoMemory;
      return;
    }
    own := own.Acquire();
    sent := Some(GetInputRequest(size, readMode, nLength));
    var count: Dword;
    var lastError: Option<LastError>;
    if readMode {
      if EitherSucceeded(reply) {
        count := reply.inputsRead;
        copiedBytes := DwordProduct(reply.inputsRead, SIZEOF_INPUT_RECORD);
        lastError := None;
      } else {
        count := 0;
        lastError := Some(NtError(reply.status));
      }
      own := own.Release();
      outcome := Outcome(reply.inputsRead > 0, Some(count), lastError);
    } else {
      if EitherSucceeded(reply) {
        count := reply.length;
        copiedBytes := DwordProduct(reply.length, SIZEOF_INPUT_RECORD);
        lastError := None;
      } else {
        count := 0;
        lastError := Some(NtError(reply.status));
      }
      own := own.Release();
      outcome := Outcome(NtSuccess(reply.status), Some(count), lastError);
    }
  }

  /** The request sent: capture size in bytes, the caller's buffer
      dimensions and position, and the region to read. */
  datatype ReadOutputRequest = ReadOutputRequest(captureBytes: Dword, bufferSize: Coord, bufferCoord: Coord,
                                                 region: SmallRect)

  /** IntReadConsoleOutput. The value CsrClientCallServer returns is not
      looked at: only the status in the message decides. `regionOut` is
      what *lpReadRegion holds afterwards. */
  method IntReadConsoleOutput(bufferPresent: bool, bufferSize: Coord, bufferCoord: Coord, readRegion: SmallRect,
                              unicode: bool, captureOk: bool, reply: RegionReply)
    returns (outcome: Outcome, sent: Option<ReadOutputRequest>, copiedBytes: Dword, regionOut: SmallRect,
             ghost own: Ownership)
    ensures own.acquired == (if bufferPresent && captureOk then 1 else 0) && own.Balanced()
    ensures sent.Some? <==> bufferPresent && captureOk
    ensures !bufferPresent ==> outcome == InvalidParameter && copiedBytes == 0 && regionOut == readRegion
    ensures bufferPresent && !captureOk ==> outcome == NoMemory && copiedBytes == 0 && regionOut == readRegion
    ensures sent.Some? ==>
      && sent.value == ReadOutputRequest(BufferBytes(bufferSize), bufferSize, bufferCoord, readRegion)
      && regionOut == reply.region
      && outcome.ok == NtSuccess(reply.status)
      && outcome.count == None
    ensures sent.Some? && NtSuccess(reply.status) ==>
      outcome.lastError == None && copiedBytes == RegionBytes(reply.region)
    ensures sent.Some? && !NtSuccess(reply.status) ==>
      outcome.lastError == Some(NtError(reply.status)) && copiedBytes == 0
  {
    own := Ownership(0, 0);
    sent := None;
    copiedBytes := 0;
    regionOut := readRegion;
    if !bufferPresent {
      outcome := InvalidParameter;
      return;
    }
    var size := BufferBytes(bufferSize);
    if !captureOk {
      outcome := NoMemory;
      return;
    }
    own := own.Acquire();
    sent := Some(ReadOutputRequest(size, bufferSize, bufferCoord, readRegion));
    var lastError: Option<LastError> := None;
    if NtSuccess(reply.status) {
      copiedBytes := RegionBytes(reply.region);
    } else {
      lastError := Some(NtError(reply.status));
    }
    regionOut := reply.region;
    own := own.Release();
    outcome := Outcome(NtSuccess(reply.status), None, lastError);
  }

  /** The CodeType argument: CODE_ASCII, CODE_UNICODE, CODE_ATTRIBUTE, or
      any other USHORT value. */
  datatype CodeType = CodeAscii | CodeUnicode | CodeAttribute | CodeOther(value: Word)

  /** Size of one code of the given type; None for a type the client rejects. */
  function CodeSize(code: CodeType): (size: Option<nat>)
    ensures size.None? <==> code.CodeOther?
    ensures size.Some? ==> size.value == 1 || size.value == 2
    ensures size == Some(1) <==> code == CodeAscii
  {
    match code
    case CodeAscii => Some(SIZEOF_CHAR)
    case CodeUnicode => Some(SIZEOF_WCHAR)
    case CodeAttribute => Some(SIZEOF_WORD)
    case CodeOther(_) => None
  }

  /** The request sent: capture size in bytes, CodeType, NumCodesToRead
      and ReadCoord. */
  datatype CodeRequest = CodeRequest(captureBytes: Dword, codeType: CodeType, codesToRead: Dword, readCoord: Coord)

  /** The reply: the two statuses and CodesRead. */
  datatype CodeReply = CodeReply(transport: NtStatus, status: NtStatus, codesRead: Dword)

  /** IntReadConsoleOutputCode; `copiedBytes` is the size of the copy
      into pCode. */
  method IntReadConsoleOutputCode(codeType: CodeType, nLength: Dword, readCoord: Coord, captureOk: bool,
                                  reply: CodeReply)
    returns (outcome: Outcome, sent: Option<CodeRequest>, copiedBytes: Dword, ghost own: Ownership)
    ensures own.acquired == (if !codeType.CodeOther? && captureOk then 1 else 0) && own.Balanced()
    ensures sent.Some? <==> !codeType.CodeOther? && captureOk
    ensures codeType.CodeOther? ==> outcome == InvalidParameter && copiedBytes == 0
    ensures !codeType.CodeOther? && !captureOk ==> outcome == NoMemory && copiedBytes == 0
    ensures sent.Some? ==>
      sent.value == CodeRequest(DwordProduct(nLength, CodeSize(codeType).value), codeType, nLength, readCoord)
    ensures outcome.ok <==> sent.Some? && !CallFailed(reply.transport, reply.status)
    ensures sent.Some? && CallFailed(reply.transport, reply.status) ==>
      outcome == StatusFailure(reply.transport, reply.status) && copiedBytes == 0
    ensures outcome.ok ==>
      && outcome == Outcome(true, Some(reply.codesRead), None)
      && copiedBytes == DwordProduct(reply.codesRead, CodeSize(codeType).value)
  {
    own := Ownership(0, 0);
    sent := None;
    copiedBytes := 0;
    var codeSize := CodeSize(codeType);
    if codeSize.None? {
      outcome := InvalidParameter;
      return;
    }
    var size := DwordProduct(nLength, codeSize.value);
    if !captureOk {
      outcome := NoMemory;
      return;
    }
    own := own.Acquire();
    sent := Some(CodeRequest(size, codeType, nLength, readCoord));
    if CallFailed(reply.transport, reply.status) {
      own := own.Release();
      outcome := StatusFailure(reply.transport, reply.status);
      return;
    }
    copiedBytes := DwordProduct(reply.codesRead, codeSize.value);
    own := own.Release();
    outcome := Outcome(true, Some(reply.codesRead), None);
  }
}
