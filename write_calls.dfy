/** The single-shot write helpers: IntWriteConsoleInput and
    IntWriteConsoleOutput capture the caller's buffer into a capture buffer
    and make one call; the two fill calls send a fixed-size message and
    allocate nothing. */
module ConsoleWriteCalls {
  import opened ConsoleTypes
  import opened CsrTransport
  import opened ConsoleRegions

  /** The request sent: bytes captured from lpBuffer, and Length. */
  datatype WriteInputRequest = WriteInputRequest(captureBytes: Dword, length: Dword)

  /** The reply: the status in the message and its Length field as the
      server leaves it. The value CsrClientCallServer returns is not looked
      at. */
  datatype WriteInputReply = WriteInputReply(status: NtStatus, length: Dword)

  /** IntWriteConsoleInput; `bufferPresent` is lpBuffer != NULL. */
  method IntWriteConsoleInput(bufferPresent: bool, nLength: Dword, unicode: bool, captureOk: bool,
                              reply: WriteInputReply)
    returns (outcome: Outcome, sent: Option<WriteInputRequest>, ghost own: Ownership)
    ensures own.acquired == (if bufferPresent && captureOk then 1 else 0) && own.Balanced()
    ensures sent.Some? <==> bufferPresent && captureOk
    ensures !bufferPresent ==> outcome == InvalidParameter
    ensures bufferPresent && !captureOk ==> outcome == NoMemory
    ensures sent.Some? ==> sent.value == WriteInputRequest(DwordProduct(nLength, SIZEOF_INPUT_RECORD), nLength)
    ensures outcome.ok <==> sent.Some? && NtSuccess(reply.status)
    ensures outcome.ok ==> outcome.count == Some(reply.length) && outcome.lastError == None
    ensures sent.Some? && !NtSuccess(reply.status) ==>
      outcome.count == Some(0) && outcome.lastError == Some(NtError(reply.status))
  {
    own := Ownership(0, 0);
    sent := None;
    if !bufferPresent {
      outcome := InvalidParameter;
      return;
    }
    var size := DwordProduct(nLength, SIZEOF_INPUT_RECORD);
    if !captureOk {
      outcome := NoMemory;
      return;
    }
    own := own.Acquire();
    sent := Some(WriteInputRequest(size, nLength));
    if NtSuccess(reply.status) {
      outcome := Outcome(true, Some(reply.length), None);
    } else {
      outcome := Outcome(false, Some(0), Some(NtError(reply.status)));
    }
    own := own.Release();
  }

  /** The request sent: bytes captured from lpBuffer, the buffer's
      dimensions and position, and the region to write. */
  datatype WriteOutputRequest = WriteOutputRequest(captureBytes: Dword, bufferSize: Coord, bufferCoord: Coord,
                                                   region: SmallRect)

  /** IntWriteConsoleOutput. `writeRegion` is None when lpWriteRegion is
      NULL; `regionOut` is what *lpWriteRegion holds afterwards. */
  method IntWriteConsoleOutput(bufferPresent: bool, bufferSize: Coord, bufferCoord: Coord,
                               writeRegion: Option<SmallRect>, unicode: bool, captureOk: bool, reply: RegionReply)
    returns (outcome: Outcome, sent: Option<WriteOutputRequest>, regionOut: Option<SmallRect>, ghost own: Ownership)
    ensures own.acquired == (if bufferPresent && writeRegion.Some? && captureOk then 1 else 0) && own.Balanced()
    ensures sent.Some? <==> bufferPresent && writeRegion.Some? && captureOk
    ensures !bufferPresent || writeRegion.None? ==> outcome == InvalidParameter && regionOut == writeRegion
    ensures bufferPresent && writeRegion.Some? && !captureOk ==> outcome == NoMemory && regionOut == writeRegion
    ensures sent.Some? ==>
      && sent.value == WriteOutputRequest(BufferBytes(bufferSize), bufferSize, bufferCoord, writeRegion.value)
      && regionOut == Some(reply.region)
      && outcome.ok == NtSuccess(reply.status)
      && outcome.count == None
      && (outcome.lastError == None <==> NtSuccess(reply.status))
      && (!NtSuccess(reply.status) ==> outcome.lastError == Some(NtError(reply.status)))
  {
    own := Ownership(0, 0);
    sent := None;
    regionOut := writeRegion;
    if !bufferPresent || writeRegion.None? {
      outcome := InvalidParameter;
      return;
    }
    var size := BufferBytes(bufferSize);
    if !captureOk {
      outcome := NoMemory;
      return;
    }
    own := own.Acquire();
    sent := Some(WriteOutputRequest(size, bufferSize, bufferCoord, writeRegion.value));
    var lastError: Option<LastError> := None;
    if !NtSuccess(reply.status) {
      lastError := Some(NtError(reply.status));
    }
    regionOut := Some(reply.region);
    own := own.Release();
    outcome := Outcome(NtSuccess(reply.status), None, lastError);
  }

  /** `(WORD)nLength`: the cell count a fill request carries. */
  function FillLength(nLength: Dword): (length: Word)
    ensures length == nLength <==> nLength < WORD_MODULUS
    ensures length < nLength ==> nLength - length >= WORD_MODULUS
  {
    nLength % WORD_MODULUS
  }

  /** The cell count sent is periodic in nLength with period 2^16: a fill
      2^16 cells longer asks the server for the same number of cells, so a
      fill of exactly 2^16 cells asks for none. */
  lemma FillLengthWraps(nLength: Dword)
    requires nLength >= WORD_MODULUS
    ensures FillLength(nLength) == FillLength(nLength - WORD_MODULUS)
    ensures nLength == WORD_MODULUS ==> FillLength(nLength) == 0
  {
    var q := (nLength - WORD_MODULUS) / WORD_MODULUS;
    assert nLength - WORD_MODULUS == q * WORD_MODULUS + FillLength(nLength - WORD_MODULUS);
    assert nLength == (q + 1) * WORD_MODULUS + FillLength(nLength - WORD_MODULUS);
  }

  /** `(CHAR)wAttribute`: the low byte of the attribute read as a signed
      8-bit value. */
  function AttributeByte(attribute: Word): (b: int)
    ensures -0x80 <= b < 0x80
    ensures (b - attribute) % 0x100 == 0
    ensures attribute < 0x80 ==> b == attribute
  {
    var low := attribute % 0x100;
    if low < 0x80 then low else low - 0x100
  }

  /** The attribute's high byte (the COMMON_LVB_* flags) does not survive
      the cast: two attributes with the same low byte send the same value. */
  lemma AttributeHighByteDropped(a: Word, b: Word)
    requires a % 0x100 == b % 0x100
    ensures AttributeByte(a) == AttributeByte(b)
  {
  }

  /** The request IntFillConsoleOutputCharacter sends: bUnicode, the
      character (UnicodeChar or AsciiChar), Position and Length. */
  datatype FillCharRequest<C> = FillCharRequest(unicode: bool, ch: C, position: Coord, length: Word)

  /** The request FillConsoleOutputAttribute sends: Attribute, Coord and Length. */
  datatype FillAttribRequest = FillAttribRequest(attribute: int, coord: Coord, length: Word)

  /** The reply to a fill: the two statuses and NrCharactersWritten. */
  datatype FillReply = FillReply(transport: NtStatus, status: NtStatus, written: Dword)

  /** IntFillConsoleOutputCharacter: on TRUE the count stored is the
      server's NrCharactersWritten. */
  method IntFillConsoleOutputCharacter<C>(ch: C, nLength: Dword, writeCoord: Coord, unicode: bool, reply: FillReply)
    returns (outcome: Outcome, sent: FillCharRequest<C>)
    ensures sent == FillCharRequest(unicode, ch, writeCoord, FillLength(nLength))
    ensures outcome.ok <==> !CallFailed(reply.transport, reply.status)
    ensures !outcome.ok ==> outcome == StatusFailure(reply.transport, reply.status)
    ensures outcome.ok ==> outcome == Outcome(true, Some(reply.written), None)
  {
    sent := FillCharRequest(unicode, ch, writeCoord, FillLength(nLength));
    if CallFailed(reply.transport, reply.status) {
      outcome := StatusFailure(reply.transport, reply.status);
      return;
    }
    outcome := Outcome(true, Some(reply.written), None);
  }

  /** FillConsoleOutputAttribute: on TRUE the count stored is the caller's
      nLength, not a count from the server, even when the request carried
      only nLength modulo 2^16. */
  method FillConsoleOutputAttribute(attribute: Word, nLength: Dword, writeCoord: Coord, reply: FillReply)
    returns (outcome: Outcome, sent: FillAttribRequest)
    ensures sent == FillAttribRequest(AttributeByte(attribute), writeCoord, FillLength(nLength))
    ensures outcome.ok <==> !CallFailed(reply.transport, reply.status)
    ensures !outcome.ok ==> outcome == StatusFailure(reply.transport, reply.status)
    ensures outcome.ok ==> outcome == Outcome(true, Some(nLength), None)
  {
    sent := FillAttribRequest(AttributeByte(attribute), writeCoord, FillLength(nLength));
    if CallFailed(reply.transport, reply.status) {
      outcome := StatusFailure(reply.transport, reply.status);
      return;
    }
    outcome := Outcome(true, Some(nLength), None);
  }
}
