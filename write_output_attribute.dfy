/** WriteConsoleOutputAttribute: writes attribute WORDs at a screen
    position in frames of at most CSRSS_MAX_WRITE_CONSOLE_OUTPUT_ATTRIB /
    sizeof(WORD) attributes, advancing by the frame it sent and moving the
    request's Coord to the server's EndCoord after each frame. The count is
    stored through lpNumberOfAttrsWritten before the loop starts. */
module WriteOutputAttributeDriver {
  import opened ConsoleTypes
  import opened CsrTransport

  /** One CsrClientCallServer call: the request's Coord, the span of the
      caller's attributes copied into the request (where lpAttribute
      pointed and the Length sent), the message size passed, and the
      server's reply. */
  datatype AttrCall = AttrCall(offset: nat, coord: Coord, length: nat, messageSize: nat, reply: Reply)

  /** The call made with lpAttribute at element `offset`, Size == `length`
      and the request's Coord at `coord`. */
  function AttrFrame(offset: nat, length: nat, lim: FrameLimits, coord: Coord, reply: Reply): AttrCall
  {
    AttrCall(offset, coord, length, lim.CallSize(Bytes(length, SIZEOF_WORD)), reply)
  }

  /** How the loop ends from the state where `offset` of the `total`
      attributes are written, each frame holds at most `cap` attributes and
      the server's next reply is replies[k]. The count is already stored,
      so every return carries it. */
  function AttrExit(total: Dword, offset: nat, cap: nat, replies: seq<Reply>, k: nat): Exit
    decreases |replies| - k
  {
    if offset >= total then Returned(Outcome(true, Some(total), None))
    else if k >= |replies| then Blocked
    else if CallFailed(replies[k].transport, replies[k].status) then
      Returned(Outcome(false, Some(total), CallFailure(replies[k]).lastError))
    else AttrExit(total, offset + Min(total - offset, cap), cap, replies, k + 1)
  }

  /** The calls the loop makes from the state where lpAttribute points at
      attrs[offset], the request's Coord is `coord` and the server's next
      reply is replies[k]. */
  function AttrCalls(attrs: seq<Word>, offset: nat, cap: nat, lim: FrameLimits, coord: Coord,
                     replies: seq<Reply>, k: nat): seq<AttrCall>
    decreases |replies| - k
  {
    if offset >= |attrs| || k >= |replies| then []
    else
      var reply := replies[k];
      var size := Min(|attrs| - offset, cap);
      var call := AttrFrame(offset, size, lim, coord, reply);
      if CallFailed(reply.transport, reply.status) then [call]
      else [call] + AttrCalls(attrs, offset + size, cap, lim, reply.endCoord, replies, k + 1)
  }

  /** `target` is the calls already made followed by those AttrCalls makes
      from the given state; unfolded one call at a time, as the loop makes
      them. */
  ghost predicate AttrReaches(done: seq<AttrCall>, count: nat, offset: nat, cap: nat, lim: FrameLimits,
                              coord: Coord, replies: seq<Reply>, k: nat, target: seq<AttrCall>)
    decreases |replies| - k
  {
    if offset >= count || k >= |replies| then target == done
    else
      var reply := replies[k];
      var size := Min(count - offset, cap);
      var call := AttrFrame(offset, size, lim, coord, reply);
      if CallFailed(reply.transport, reply.status) then target == done + [call]
      else AttrReaches(done + [call], count, offset + size, cap, lim, reply.endCoord, replies, k + 1, target)
  }

  /** How WriteConsoleOutputAttribute ends: the request allocation, then the loop. */
  function OutputAttributeExit(total: Dword, lim: FrameLimits, heapOk: bool, replies: seq<Reply>): Exit
    requires lim.Valid()
  {
    if !heapOk then Returned(NoMemory)
    else AttrExit(total, 0, lim.Capacity(SIZEOF_WORD), replies, 0)
  }

  /** The calls WriteConsoleOutputAttribute makes, from dwWriteCoord. */
  function OutputAttributeCalls(attrs: seq<Word>, lim: FrameLimits, heapOk: bool, writeCoord: Coord,
                                replies: seq<Reply>): seq<AttrCall>
    requires lim.Valid()
  {
    if !heapOk then []
    else AttrCalls(attrs, 0, lim.Capacity(SIZEOF_WORD), lim, writeCoord, replies, 0)
  }

  /** The client code, with the heap request tracked by its ghost ledger. */
  method WriteConsoleOutputAttribute(attrs: seq<Word>, lim: FrameLimits, heapOk: bool, writeCoord: Coord,
                                     replies: seq<Reply>)
    returns (exit: Exit, calls: seq<AttrCall>, ghost own: Ownership)
    requires lim.Valid() && |attrs| < DWORD_MODULUS
    ensures exit == OutputAttributeExit(|attrs|, lim, heapOk, replies)
    ensures calls == OutputAttributeCalls(attrs, lim, heapOk, writeCoord, replies)
    ensures own.acquired == (if heapOk then 1 else 0)
    ensures exit.Returned? ==> own.Balanced()
    ensures !exit.Returned? ==> own.released == 0
  {
    var cap := lim.Capacity(SIZEOF_WORD);
    calls := [];
    own := Ownership(0, 0);
    if !heapOk {
      exit := Returned(NoMemory);
      return;
    }
    own := own.Acquire();
    ghost var target := OutputAttributeCalls(attrs, lim, heapOk, writeCoord, replies);
    AttrReachesCalls([], attrs, 0, cap, lim, writeCoord, replies, 0, target);
    var coord := writeCoord;
    // *lpNumberOfAttrsWritten = nLength, before any frame is sent
    var stored: Dword := |attrs|;
    var nLength: nat := |attrs|;
    var offset: nat := 0;
    var k := 0;
    while nLength > 0
      invariant offset + nLength == |attrs| && k <= |replies|
      invariant own == Ownership(1, 0)
      invariant OutputAttributeExit(|attrs|, lim, heapOk, replies) == AttrExit(|attrs|, offset, cap, replies, k)
      invariant AttrReaches(calls, |attrs|, offset, cap, lim, coord, replies, k, target)
      decreases |replies| - k
    {
      if k == |replies| {
        exit := Blocked;
        return;
      }
      var size: Word := Min(nLength, cap);
      var reply := replies[k];
      var call := AttrFrame(offset, size, lim, coord, reply);
      if CallFailed(reply.transport, reply.status) {
        AttrTraceFail(calls, attrs, offset, cap, lim, coord, replies, k, target, size);
      } else {
        AttrTraceAdvance(calls, attrs, offset, cap, lim, coord, replies, k, target, size);
      }
      k := k + 1;
      calls := calls + [call];
      if CallFailed(reply.transport, reply.status) {
        own := own.Release();
        exit := Returned(Outcome(false, Some(stored), CallFailure(reply).lastError));
        return;
      }
      nLength := nLength - size;
      offset := offset + size;
      coord := reply.endCoord;
    }
    own := own.Release();
    exit := Returned(Outcome(true, Some(stored), None));
  }

  /** AttrReaches says what it is meant to: the calls made so far followed
      by AttrCalls from the same state. */
  lemma {:induction false} AttrReachesCalls(done: seq<AttrCall>, attrs: seq<Word>, offset: nat, cap: nat,
                                            lim: FrameLimits, coord: Coord, replies: seq<Reply>, k: nat,
                                            target: seq<AttrCall>)
    ensures AttrReaches(done, |attrs|, offset, cap, lim, coord, replies, k, target)
            <==> target == done + AttrCalls(attrs, offset, cap, lim, coord, replies, k)
    decreases |replies| - k
  {
    if offset >= |attrs| || k >= |replies| {
      assert done + [] == done;
    } else {
      var reply := replies[k];
      var size := Min(|attrs| - offset, cap);
      var call := AttrFrame(offset, size, lim, coord, reply);
      if !CallFailed(reply.transport, reply.status) {
        var rest := AttrCalls(attrs, offset + size, cap, lim, reply.endCoord, replies, k + 1);
        AttrReachesCalls(done + [call], attrs, offset + size, cap, lim, reply.endCoord, replies, k + 1, target);
        assert (done + [call]) + rest == done + ([call] + rest);
      }
    }
  }

  /** One turn of the loop that goes on to the next frame. */
  lemma AttrTraceAdvance(done: seq<AttrCall>, attrs: seq<Word>, offset: nat, cap: nat, lim: FrameLimits,
                         coord: Coord, replies: seq<Reply>, k: nat, target: seq<AttrCall>, size: nat)
    requires offset < |attrs| < DWORD_MODULUS && k < |replies| && size == Min(|attrs| - offset, cap)
    requires !CallFailed(replies[k].transport, replies[k].status)
    requires AttrReaches(done, |attrs|, offset, cap, lim, coord, replies, k, target)
    ensures AttrReaches(done + [AttrFrame(offset, size, lim, coord, replies[k])], |attrs|, offset + size,
                        cap, lim, replies[k].endCoord, replies, k + 1, target)
    ensures AttrExit(|attrs|, offset, cap, replies, k) == AttrExit(|attrs|, offset + size, cap, replies, k + 1)
  {
  }

  /** One turn of the loop ending at a failed call. */
  lemma AttrTraceFail(done: seq<AttrCall>, attrs: seq<Word>, offset: nat, cap: nat, lim: FrameLimits,
                      coord: Coord, replies: seq<Reply>, k: nat, target: seq<AttrCall>, size: nat)
    requires offset < |attrs| < DWORD_MODULUS && k < |replies| && size == Min(|attrs| - offset, cap)
    requires CallFailed(replies[k].transport, replies[k].status)
    requires AttrReaches(done, |attrs|, offset, cap, lim, coord, replies, k, target)
    ensures target == done + [AttrFrame(offset, size, lim, coord, replies[k])]
    ensures AttrExit(|attrs|, offset, cap, replies, k)
            == Returned(Outcome(false, Some(|attrs|), CallFailure(replies[k]).lastError))
  {
  }

  /** One turn of the loop with attributes left and a reply to read: the
      call it makes, and where the calls and the exit go next. */
  lemma AttrStep(attrs: seq<Word>, offset: nat, cap: nat, lim: FrameLimits, coord: Coord,
                 replies: seq<Reply>, k: nat)
    requires offset < |attrs| < DWORD_MODULUS && k < |replies|
    ensures var reply := replies[k];
      var size := Min(|attrs| - offset, cap);
      var call := AttrFrame(offset, size, lim, coord, reply);
      var c := AttrCalls(attrs, offset, cap, lim, coord, replies, k);
      var e := AttrExit(|attrs|, offset, cap, replies, k);
      && |c| > 0 && c[0] == call
      && (CallFailed(reply.transport, reply.status) ==>
            c == [call] && e == Returned(Outcome(false, Some(|attrs|), CallFailure(reply).lastError)))
      && (!CallFailed(reply.transport, reply.status) ==>
            && c == [call] + AttrCalls(attrs, offset + size, cap, lim, reply.endCoord, replies, k + 1)
            && e == AttrExit(|attrs|, offset + size, cap, replies, k + 1))
  {
  }

  /** Call i is answered by reply k + i of the script, and the run is
      Blocked only once every reply has been used. */
  lemma {:induction false} AttrCallsFollowReplies(attrs: seq<Word>, offset: nat, cap: nat, lim: FrameLimits,
                                                  coord: Coord, replies: seq<Reply>, k: nat)
    requires |attrs| < DWORD_MODULUS && k <= |replies|
    ensures var c := AttrCalls(attrs, offset, cap, lim, coord, replies, k);
      && |c| <= |replies| - k
      && (AttrExit(|attrs|, offset, cap, replies, k) == Blocked ==> |c| == |replies| - k)
      && forall i :: 0 <= i < |c| ==> c[i].reply == replies[k + i]
    decreases |replies| - k
  {
    var c := AttrCalls(attrs, offset, cap, lim, coord, replies, k);
    if offset < |attrs| && k < |replies| {
      var reply := replies[k];
      var size := Min(|attrs| - offset, cap);
      if !CallFailed(reply.transport, reply.status) {
        var t := AttrCalls(attrs, offset + size, cap, lim, reply.endCoord, replies, k + 1);
        assert c == [AttrFrame(offset, size, lim, coord, reply)] + t;
        AttrCallsFollowReplies(attrs, offset + size, cap, lim, reply.endCoord, replies, k + 1);
        forall i | 1 <= i < |c| ensures c[i].reply == replies[k + i] {
          assert c[i] == t[i - 1];
        }
      }
    }
  }

  /** A call carries between one attribute and one frame's capacity, from
      inside the caller's buffer, in a message sized for exactly that frame
      that fits the heap request. */
  predicate AttrCallShaped(count: nat, lim: FrameLimits, call: AttrCall)
    requires lim.Valid()
  {
    && 1 <= call.length <= lim.Capacity(SIZEOF_WORD)
    && call.offset + call.length <= count
    && call.messageSize == lim.CallSize(Bytes(call.length, SIZEOF_WORD))
    && call.messageSize <= lim.AllocationSize(count, SIZEOF_WORD)
  }

  /** Every call is shaped so: the WORD Size never truncates, the memcpy
      never reads outside the caller's attributes, and the message size
      never exceeds the heap request. */
  lemma {:induction false} AttrCallsShaped(attrs: seq<Word>, offset: nat, lim: FrameLimits, coord: Coord,
                                           replies: seq<Reply>, k: nat)
    requires lim.Valid() && |attrs| < DWORD_MODULUS
    ensures var c := AttrCalls(attrs, offset, lim.Capacity(SIZEOF_WORD), lim, coord, replies, k);
      forall i :: 0 <= i < |c| ==> AttrCallShaped(|attrs|, lim, c[i])
    decreases |replies| - k
  {
    var cap := lim.Capacity(SIZEOF_WORD);
    var c := AttrCalls(attrs, offset, cap, lim, coord, replies, k);
    if offset < |attrs| && k < |replies| {
      var reply := replies[k];
      var size := Min(|attrs| - offset, cap);
      AttrStep(attrs, offset, cap, lim, coord, replies, k);
      FrameFitsAllocation(lim, |attrs|, SIZEOF_WORD, size);
      assert AttrCallShaped(|attrs|, lim, c[0]);
      if !CallFailed(reply.transport, reply.status) {
        var t := AttrCalls(attrs, offset + size, cap, lim, reply.endCoord, replies, k + 1);
        AttrCallsShaped(attrs, offset + size, lim, reply.endCoord, replies, k + 1);
        forall i | 1 <= i < |c| ensures c[i] == t[i - 1] {
        }
      }
    }
  }

  /** The frames tile the caller's attributes and the cursor follows the
      server: the first call starts at the loop's own position and Coord,
      each later one right after the previous frame (not where the server
      says it stopped) and at the previous reply's EndCoord. Only the last
      call can have failed. */
  lemma {:induction false} AttrFramesFollowCursor(attrs: seq<Word>, offset: nat, cap: nat, lim: FrameLimits,
                                                  coord: Coord, replies: seq<Reply>, k: nat)
    ensures var c := AttrCalls(attrs, offset, cap, lim, coord, replies, k);
      && (|c| > 0 ==> c[0].offset == offset && c[0].coord == coord)
      && forall i :: 0 <= i < |c| - 1 ==>
           && !CallFailed(c[i].reply.transport, c[i].reply.status)
           && c[i + 1].offset == c[i].offset + c[i].length
           && c[i + 1].coord == c[i].reply.endCoord
    decreases |replies| - k
  {
    var c := AttrCalls(attrs, offset, cap, lim, coord, replies, k);
    if offset < |attrs| && k < |replies| {
      var reply := replies[k];
      var size := Min(|attrs| - offset, cap);
      assert c[0] == AttrFrame(offset, size, lim, coord, reply);
      if !CallFailed(reply.transport, reply.status) {
        var t := AttrCalls(attrs, offset + size, cap, lim, reply.endCoord, replies, k + 1);
        assert c == [c[0]] + t;
        AttrFramesFollowCursor(attrs, offset + size, cap, lim, reply.endCoord, replies, k + 1);
        forall i | 0 <= i < |c| - 1
          ensures && !CallFailed(c[i].reply.transport, c[i].reply.status)
                  && c[i + 1].offset == c[i].offset + c[i].length
                  && c[i + 1].coord == c[i].reply.endCoord
        {
          assert c[i + 1] == t[i];
          if i > 0 {
            assert c[i] == t[i - 1];
          }
        }
      }
    }
  }

  /** The sum of the frame lengths of the given calls. */
  function SentTotal(calls: seq<AttrCall>): nat
  {
    if calls == [] then 0 else calls[0].length + SentTotal(calls[1..])
  }

  lemma SentTotalCons(call: AttrCall, t: seq<AttrCall>)
    ensures SentTotal([call] + t) == call.length + SentTotal(t)
  {
    assert ([call] + t)[1..] == t;
  }

  /** On TRUE the frames sent add up to exactly the attributes that
      remained: nothing is skipped or sent twice. */
  lemma {:induction false} AttrFramesCoverBuffer(attrs: seq<Word>, offset: nat, cap: nat, lim: FrameLimits,
                                                 coord: Coord, replies: seq<Reply>, k: nat)
    requires offset <= |attrs| < DWORD_MODULUS
    ensures var c := AttrCalls(attrs, offset, cap, lim, coord, replies, k);
      var e := AttrExit(|attrs|, offset, cap, replies, k);
      e.Returned? && e.outcome.ok ==> offset + SentTotal(c) == |attrs|
    decreases |replies| - k
  {
    var c := AttrCalls(attrs, offset, cap, lim, coord, replies, k);
    if offset < |attrs| && k < |replies| {
      var reply := replies[k];
      var size := Min(|attrs| - offset, cap);
      AttrStep(attrs, offset, cap, lim, coord, replies, k);
      if !CallFailed(reply.transport, reply.status) {
        var t := AttrCalls(attrs, offset + size, cap, lim, reply.endCoord, replies, k + 1);
        AttrFramesCoverBuffer(attrs, offset + size, cap, lim, reply.endCoord, replies, k + 1);
        SentTotalCons(c[0], t);
      }
    }
  }

  /** Every return after the allocation carries the count stored up front,
      nLength itself, whatever the outcome; FALSE comes only from a failed
      call, the last one, with that call's failure status as last error;
      TRUE sets no error. */
  lemma {:induction false} AttrCountStoredUpFront(attrs: seq<Word>, offset: nat, cap: nat, lim: FrameLimits,
                                                  coord: Coord, replies: seq<Reply>, k: nat)
    requires |attrs| < DWORD_MODULUS
    ensures var c := AttrCalls(attrs, offset, cap, lim, coord, replies, k);
      var e := AttrExit(|attrs|, offset, cap, replies, k);
      && !e.Overrun?
      && (e.Returned? ==> e.outcome.count == Some(|attrs|))
      && (e.Returned? && e.outcome.ok ==> e.outcome.lastError == None)
      && (e.Returned? && !e.outcome.ok ==>
            && |c| > 0
            && CallFailed(c[|c| - 1].reply.transport, c[|c| - 1].reply.status)
            && e.outcome.lastError == CallFailure(c[|c| - 1].reply).lastError)
    decreases |replies| - k
  {
    var c := AttrCalls(attrs, offset, cap, lim, coord, replies, k);
    if offset < |attrs| && k < |replies| {
      var reply := replies[k];
      var size := Min(|attrs| - offset, cap);
      AttrStep(attrs, offset, cap, lim, coord, replies, k);
      if !CallFailed(reply.transport, reply.status) {
        var t := AttrCalls(attrs, offset + size, cap, lim, reply.endCoord, replies, k + 1);
        AttrCountStoredUpFront(attrs, offset + size, cap, lim, reply.endCoord, replies, k + 1);
        if |t| > 0 {
          assert c[|c| - 1] == t[|t| - 1];
        }
      }
    }
  }

  /** With a server that never fails, a write of n attributes takes exactly
      ceil(n / capacity) calls and returns TRUE. */
  lemma {:induction false} AttrFrameCount(attrs: seq<Word>, offset: nat, cap: nat, lim: FrameLimits,
                                          coord: Coord, replies: seq<Reply>, k: nat)
    requires cap >= 1 && offset <= |attrs| < DWORD_MODULUS && k <= |replies|
    requires forall i :: k <= i < |replies| ==> !CallFailed(replies[i].transport, replies[i].status)
    requires |replies| - k >= FrameCount(|attrs| - offset, cap)
    ensures var e := AttrExit(|attrs|, offset, cap, replies, k);
      && e.Returned? && e.outcome.ok
      && |AttrCalls(attrs, offset, cap, lim, coord, replies, k)| == FrameCount(|attrs| - offset, cap)
    decreases |replies| - k
  {
    if offset == |attrs| {
      assert FrameCount(0, cap) == 0 by { DivIsQuotient(cap - 1, cap, 0); }
    } else {
      var size := Min(|attrs| - offset, cap);
      FrameCountStep(|attrs| - offset, cap);
      assert |attrs| - offset - size == |attrs| - (offset + size);
      var reply := replies[k];
      assert !CallFailed(reply.transport, reply.status);
      AttrStep(attrs, offset, cap, lim, coord, replies, k);
      AttrFrameCount(attrs, offset + size, cap, lim, reply.endCoord, replies, k + 1);
    }
  }

  /** From the start of the call: without the heap request nothing is
      stored and nothing sent; with it every return stores nLength, and a
      TRUE return has sent every attribute exactly once. */
  lemma OutputAttributeReportsLength(attrs: seq<Word>, lim: FrameLimits, heapOk: bool, writeCoord: Coord,
                                     replies: seq<Reply>)
    requires lim.Valid() && |attrs| < DWORD_MODULUS
    ensures var e := OutputAttributeExit(|attrs|, lim, heapOk, replies);
      var c := OutputAttributeCalls(attrs, lim, heapOk, writeCoord, replies);
      && (!heapOk ==> e == Returned(NoMemory) && c == [])
      && (heapOk && e.Returned? ==> e.outcome.count == Some(|attrs|))
      && (e.Returned? && e.outcome.ok ==> SentTotal(c) == |attrs|)
  {
    if heapOk {
      var cap := lim.Capacity(SIZEOF_WORD);
      AttrCountStoredUpFront(attrs, 0, cap, lim, writeCoord, replies, 0);
      AttrFramesCoverBuffer(attrs, 0, cap, lim, writeCoord, replies, 0);
    }
  }
}
