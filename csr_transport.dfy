/** The client side of the CSR call as the chunked write drivers use it:
    the reply of one CsrClientCallServer round trip, the two-level status
    check, and the message-size arithmetic of the heap-allocated request. */
module CsrTransport {
  import opened ConsoleTypes

  /** One reply of the console server to a chunk: the status returned by
      CsrClientCallServer, the status embedded in the message, the count
      the server reports (NrCharactersWritten) and the cursor where it
      stopped (EndCoord). */
  datatype Reply = Reply(transport: NtStatus, status: NtStatus, written: Dword, endCoord: Coord)

  /** `!NT_SUCCESS(Status) || !NT_SUCCESS(Status = Request->Status)`: a
      call goes through only when both statuses succeed. STATUS_PENDING is a
      success code, so a pending transport is not a failure by itself. */
  predicate CallFailed(transport: NtStatus, status: NtStatus): (failed: bool)
    ensures !failed <==> NtSuccess(transport) && NtSuccess(status)
    ensures transport == STATUS_PENDING ==> (failed <==> !NtSuccess(status))
  {
    !NtSuccess(transport) || !NtSuccess(status)
  }

  /** The status left in `Status` by that check when it fails, and so the
      one handed to BaseSetLastNTError: the transport failure if there is
      one, otherwise the server's own. */
  function FailureStatus(transport: NtStatus, status: NtStatus): (s: NtStatus)
    requires CallFailed(transport, status)
    ensures !NtSuccess(s)
    ensures s == transport || s == status
    ensures !NtSuccess(transport) ==> s == transport
  {
    if !NtSuccess(transport) then transport else status
  }

  /** What a client call returns after a failed call: FALSE, no count
      stored, and the failure status handed to BaseSetLastNTError. */
  function StatusFailure(transport: NtStatus, status: NtStatus): (o: Outcome)
    requires CallFailed(transport, status)
    ensures !o.ok && o.count == None
    ensures o.lastError == Some(NtError(FailureStatus(transport, status)))
  {
    Outcome(false, None, Some(NtError(FailureStatus(transport, status))))
  }

  /** The same for a failed reply of a chunk loop. */
  function CallFailure(reply: Reply): (o: Outcome)
    requires CallFailed(reply.transport, reply.status)
    ensures o == StatusFailure(reply.transport, reply.status)
  {
    StatusFailure(reply.transport, reply.status)
  }

  /** Per-operation sizes from the CSR message definitions: sizeof(CSR_API_MESSAGE),
      CSR_API_MESSAGE_HEADER_SIZE(request type) and CSRSS_MAX_* (the largest
      inline payload, in bytes). Valid() states what the client's casts need:
      at least one element of either width fits, and an element count of
      at most maxPayload survives the USHORT/WORD casts. */
  datatype FrameLimits = FrameLimits(messageSize: nat, headerSize: nat, maxPayload: nat) {

    predicate Valid() { 2 <= maxPayload <= 0xFFFF }

    /** CSRSS_MAX_* / elemSize: the largest element count whose bytes fit one frame. */
    function Capacity(elemSize: nat): (c: nat)
      requires Valid() && 1 <= elemSize <= 2
      ensures 1 <= c < WORD_MODULUS
      ensures Bytes(c, elemSize) <= maxPayload < Bytes(c + 1, elemSize)
    {
      if elemSize == 1 then maxPayload else maxPayload / 2
    }

    /** Message size handed to CsrClientCallServer for a frame of `bytes` payload bytes. */
    function CallSize(bytes: nat): (size: nat)
      ensures size >= messageSize && size >= headerSize + bytes
      ensures size == messageSize || size == headerSize + bytes
    {
      Max(messageSize, headerSize + bytes)
    }

    /** Size of the heap request allocated for a write of `count` elements:
        the call size of the largest frame the write can need. */
    function AllocationSize(count: nat, elemSize: nat): (size: nat)
      requires Valid() && 1 <= elemSize <= 2
      ensures size <= Max(messageSize, headerSize + maxPayload)
    {
      CallSize(Bytes(Min(count, Capacity(elemSize)), elemSize))
    }
  }

  /** Size in bytes of n elements of elemSize bytes each (`nChars *
      CharSize`), for the two element sizes the client uses. */
  function Bytes(n: nat, elemSize: nat): (bytes: nat)
    ensures 1 <= elemSize <= 2 ==> bytes == n * elemSize
  {
    if elemSize == 1 then n else n + n
  }

  /** A frame of `n` elements, no longer than the write and one frame's
      capacity, fits the heap request allocated for the write, and never
      exceeds one transport frame. */
  lemma FrameFitsAllocation(lim: FrameLimits, count: nat, elemSize: nat, n: nat)
    requires lim.Valid() && 1 <= elemSize <= 2
    requires n <= Min(count, lim.Capacity(elemSize))
    ensures lim.CallSize(Bytes(n, elemSize)) <= lim.AllocationSize(count, elemSize)
    ensures Bytes(n, elemSize) <= lim.maxPayload
  {
  }

  /** How a chunk loop ended: it returned to its caller, the reply script
      ran out while the loop was still running (in the source the caller is
      still inside the loop), or the server reported more elements than
      remained, which the source turns into a DWORD underflow. */
  datatype Exit = Returned(outcome: Outcome) | Blocked | Overrun

  /** Number of frames a write of `n` elements needs at `cap` elements per frame. */
  function FrameCount(n: nat, cap: nat): nat
    requires cap >= 1
  {
    (n + cap - 1) / cap
  }

  /** One more full frame is one more call; the last, partial frame is one call. */
  lemma FrameCountStep(n: nat, cap: nat)
    requires cap >= 1 && n >= 1
    ensures FrameCount(n, cap) == 1 + FrameCount(n - Min(n, cap), cap)
  {
    if n <= cap {
      assert FrameCount(n, cap) == 1 by {
        assert cap <= n + cap - 1 < 2 * cap;
        DivIsQuotient(n + cap - 1, cap, 1);
      }
      assert FrameCount(0, cap) == 0 by { DivIsQuotient(cap - 1, cap, 0); }
    } else {
      var q, r := (n - 1) / cap, (n - 1) % cap;
      assert n - 1 == q * cap + r;
      assert FrameCount(n - Min(n, cap), cap) == q;
      DivIsQuotient(n + cap - 1, cap, q + 1);
    }
  }

  lemma DivIsQuotient(x: nat, d: nat, q: nat)
    requires d >= 1 && q * d <= x < (q + 1) * d
    ensures x / d == q
  {
    var p := x / d;
    assert p * d <= x < p * d + d;
    MulMonotone(p + 1, q, d);
    MulMonotone(q + 1, p, d);
  }

  lemma MulMonotone(a: nat, b: nat, d: nat)
    ensures a <= b ==> a * d <= b * d
  {
  }

}
