/** IntWriteConsole: writes a character buffer to a console screen buffer
    in frames of at most CSRSS_MAX_WRITE_CONSOLE / CharSize characters,
    re-sending a frame the server answered with STATUS_PENDING. */
module WriteConsoleDriver {
  import opened ConsoleTypes
  import opened CsrTransport

  /** One CsrClientCallServer call of the loop: the span of the caller's
      buffer copied into the request (where lpBuffer pointed and the
      nChars sent), the message size passed, and the server's reply. */
  datatype WriteCall = WriteCall(offset: nat, length: nat, messageSize: nat, reply: Reply)

  /** The transport answered STATUS_PENDING: the client waits on the
      request's UnpauseEvent and sends the same frame again. */
  predicate IsPending(r: Reply) { r.transport == STATUS_PENDING }

  /** A reply after which the loop moves on to the next frame. */
  predicate Accepted(r: Reply) { !IsPending(r) && !CallFailed(r.transport, r.status) }

  /** A reply after which the loop frees the request and returns FALSE. */
  predicate Fatal(r: Reply) { !IsPending(r) && CallFailed(r.transport, r.status) }

  /** Every reply is handled in exactly one of the three ways. The pending
      test must come first: STATUS_PENDING is a success code, so a pending
      reply whose message status succeeds would otherwise pass the
      two-level check as accepted. */
  lemma ReplyKinds(r: Reply)
    ensures IsPending(r) || Accepted(r) || Fatal(r)
    ensures !(IsPending(r) && Accepted(r)) && !(IsPending(r) && Fatal(r)) && !(Accepted(r) && Fatal(r))
    ensures IsPending(r) ==> NtSuccess(r.transport)
    ensures IsPending(r) && NtSuccess(r.status) ==> !CallFailed(r.transport, r.status)
  {
  }

  /** Where lpBuffer points after a reply that is not fatal: a pending
      reply `continue`s before the pointer moves, an accepted one moves it
      past the frame. */
  function NextOffset(offset: nat, nChars: nat, reply: Reply): nat
  {
    if IsPending(reply) then offset else offset + nChars
  }

  /** Written after a reply that is not fatal. */
  function NextWritten(written: Dword, reply: Reply): Dword
  {
    if IsPending(reply) then written else AddDword(written, reply.written)
  }

  /** The call made with lpBuffer at element `offset` and nChars == `length`. */
  function WriteFrame(offset: nat, length: nat, lim: FrameLimits, charSize: nat, reply: Reply): WriteCall
  {
    WriteCall(offset, length, lim.CallSize(Bytes(length, charSize)), reply)
  }

  /** How the loop ends from the state where `offset` of `count`
      characters are written, Written is `written`, each frame holds at most
      `cap` characters and the server's next reply is replies[k]. */
  function WriteExit(count: nat, offset: nat, cap: nat, written: Dword, replies: seq<Reply>, k: nat): Exit
    decreases |replies| - k
  {
    if offset >= count then Returned(Outcome(true, Some(written), None))
    else if k >= |replies| then Blocked
    else if Fatal(replies[k]) then Returned(CallFailure(replies[k]))
    else WriteExit(count, NextOffset(offset, Min(count - offset, cap), replies[k]), cap,
                   NextWritten(written, replies[k]), replies, k + 1)
  }

  /** The calls the loop makes from the state where lpBuffer points at
      buf[offset] and the server's next reply is replies[k]. */
  function WriteCalls<E>(buf: seq<E>, offset: nat, cap: nat, lim: FrameLimits, charSize: nat,
                         replies: seq<Reply>, k: nat): seq<WriteCall>
    decreases |replies| - k
  {
    if offset >= |buf| || k >= |replies| then []
    else
      var reply := replies[k];
      var nChars := Min(|buf| - offset, cap);
      var call := WriteFrame(offset, nChars, lim, charSize, reply);
      if Fatal(reply) then [call]
      else [call] + WriteCalls(buf, NextOffset(offset, nChars, reply), cap, lim, charSize, replies, k + 1)
  }

  /** `target` is the calls already made followed by those WriteCalls
      makes from the given state; unfolded one call at a time, as the loop
      makes them. */
  ghost predicate WriteReaches(done: seq<WriteCall>, count: nat, offset: nat, cap: nat, lim: FrameLimits,
                               charSize: nat, replies: seq<Reply>, k: nat, target: seq<WriteCall>)
    decreases |replies| - k
  {
    if offset >= count || k >= |replies| then target == done
    else
      var reply := replies[k];
      var nChars := Min(count - offset, cap);
      var call := WriteFrame(offset, nChars, lim, charSize, reply);
      if Fatal(reply) then target == done + [call]
      else WriteReaches(done + [call], count, NextOffset(offset, nChars, reply), cap, lim, charSize, replies, k + 1, target)
  }

  /** How IntWriteConsole ends: the request allocation, then the loop. */
  function WriteConsoleExit(count: nat, unicode: bool, lim: FrameLimits, heapOk: bool,
                            replies: seq<Reply>): Exit
    requires lim.Valid()
  {
    if !heapOk then Returned(NoMemory)
    else WriteExit(count, 0, lim.Capacity(CharSize(unicode)), 0, replies, 0)
  }

  /** The calls IntWriteConsole makes. */
  function WriteConsoleCalls<E>(buf: seq<E>, unicode: bool, lim: FrameLimits, heapOk: bool,
                                replies: seq<Reply>): seq<WriteCall>
    requires lim.Valid()
  {
    if !heapOk then []
    else
      var charSize := CharSize(unicode);
      WriteCalls(buf, 0, lim.Capacity(charSize), lim, charSize, replies, 0)
  }

  /** The client code. The heap request is modelled by its ghost ownership
      ledger; `replies` scripts the server; the reply script running out
      ends the run as Blocked. */
  method IntWriteConsole<E>(buf: seq<E>, unicode: bool, lim: FrameLimits, heapOk: bool,
                            replies: seq<Reply>)
    returns (exit: Exit, calls: seq<WriteCall>, ghost own: Ownership)
    requires lim.Valid()
    ensures exit == WriteConsoleExit(|buf|, unicode, lim, heapOk, replies)
    ensures calls == WriteConsoleCalls(buf, unicode, lim, heapOk, replies)
    ensures own.acquired == (if heapOk then 1 else 0)
    ensures exit.Returned? ==> own.Balanced()
    ensures !exit.Returned? ==> own.released == 0
  {
    var charSize := CharSize(unicode);
    var cap := lim.Capacity(charSize);
    calls := [];
    own := Ownership(0, 0);
    if !heapOk {
      exit := Returned(NoMemory);
      return;
    }
    own := own.Acquire();
    ghost var target := WriteConsoleCalls(buf, unicode, lim, heapOk, replies);
    WriteReachesCalls([], buf, 0, cap, lim, charSize, replies, 0, target);
    var remaining: nat := |buf|;
    var offset: nat := 0;
    var written: Dword := 0;
    var k := 0;
    while remaining > 0
      invariant offset + remaining == |buf| && k <= |replies|
      invariant own == Ownership(1, 0)
      invariant WriteConsoleExit(|buf|, unicode, lim, heapOk, replies) == WriteExit(|buf|, offset, cap, written, replies, k)
      invariant WriteReaches(calls, |buf|, offset, cap, lim, charSize, replies, k, target)
      decreases |replies| - k
    {
      if k == |replies| {
        exit := Blocked;
        return;
      }
      var nChars: Word := Min(remaining, cap);
      var reply := replies[k];
      var call := WriteFrame(offset, nChars, lim, charSize, reply);
      if IsPending(reply) {
        WriteTraceAdvance(calls, buf, offset, cap, lim, charSize, written, replies, k, target, nChars, offset, written);
      } else if CallFailed(reply.transport, reply.status) {
        WriteTraceFail(calls, buf, offset, cap, lim, charSize, written, replies, k, target, nChars);
      } else {
        WriteTraceAdvance(calls, buf, offset, cap, lim, charSize, written, replies, k, target,
                          nChars, offset + nChars, AddDword(written, reply.written));
      }
      k := k + 1;
      calls := calls + [call];
      if IsPending(reply) {
        // WaitForSingleObject / CloseHandle on UnpauseEvent, then the same frame again
        continue;
      }
      if CallFailed(reply.transport, reply.status) {
        own := own.Release();
        exit := Returned(CallFailure(reply));
        return;
      }
      remaining := remaining - nChars;
      offset := offset + nChars;
      written := AddDword(written, reply.written);
    }
    exit := Returned(Outcome(true, Some(written), None));
    own := own.Release();
  }

  /** WriteReaches says what it is meant to: the calls made so far
      followed by WriteCalls from the same state. */
  lemma {:induction false} WriteReachesCalls<E>(done: seq<WriteCall>, buf: seq<E>, offset: nat, cap: nat,
                                                lim: FrameLimits, charSize: nat, replies: seq<Reply>, k: nat,
                                                target: seq<WriteCall>)
    ensures WriteReaches(done, |buf|, offset, cap, lim, charSize, replies, k, target)
            <==> target == done + WriteCalls(buf, offset, cap, lim, charSize, replies, k)
    decreases |replies| - k
  {
    if offset >= |buf| || k >= |replies| {
      assert done + [] == done;
    } else {
      var reply := replies[k];
      var nChars := Min(|buf| - offset, cap);
      var call := WriteFrame(offset, nChars, lim, charSize, reply);
      if !Fatal(reply) {
        var next := NextOffset(offset, nChars, reply);
        var rest := WriteCalls(buf, next, cap, lim, charSize, replies, k + 1);
        WriteReachesCalls(done + [call], buf, next, cap, lim, charSize, replies, k + 1, target);
        assert (done + [call]) + rest == done + ([call] + rest);
      }
    }
  }

  /** One turn of the loop, for a reply that is not fatal and the state
      the loop moves to. */
  lemma WriteTraceAdvance<E>(done: seq<WriteCall>, buf: seq<E>, offset: nat, cap: nat, lim: FrameLimits,
                             charSize: nat, written: Dword, replies: seq<Reply>, k: nat, target: seq<WriteCall>,
                             nChars: nat, next: nat, nextWritten: Dword)
    requires offset < |buf| && k < |replies| && nChars == Min(|buf| - offset, cap)
    requires !Fatal(replies[k])
    requires next == NextOffset(offset, nChars, replies[k]) && nextWritten == NextWritten(written, replies[k])
    requires WriteReaches(done, |buf|, offset, cap, lim, charSize, replies, k, target)
    ensures WriteReaches(done + [WriteFrame(offset, nChars, lim, charSize, replies[k])],
                         |buf|, next, cap, lim, charSize, replies, k + 1, target)
    ensures WriteExit(|buf|, offset, cap, written, replies, k)
            == WriteExit(|buf|, next, cap, nextWritten, replies, k + 1)
  {
  }

  /** One turn of the loop ending at a fatal reply. */
  lemma WriteTraceFail<E>(done: seq<WriteCall>, buf: seq<E>, offset: nat, cap: nat, lim: FrameLimits,
                          charSize: nat, written: Dword, replies: seq<Reply>, k: nat, target: seq<WriteCall>,
                          nChars: nat)
    requires offset < |buf| && k < |replies| && nChars == Min(|buf| - offset, cap)
    requires Fatal(replies[k])
    requires WriteReaches(done, |buf|, offset, cap, lim, charSize, replies, k, target)
    ensures target == done + [WriteFrame(offset, nChars, lim, charSize, replies[k])]
    ensures WriteExit(|buf|, offset, cap, written, replies, k) == Returned(CallFailure(replies[k]))
  {
  }

  /** One turn of the loop with characters left and a reply to read: the
      call it makes, and where the calls and the exit go next. */
  lemma WriteStep<E>(buf: seq<E>, offset: nat, cap: nat, lim: FrameLimits, charSize: nat,
                     written: Dword, replies: seq<Reply>, k: nat)
    requires offset < |buf| && k < |replies|
    ensures var reply := replies[k];
      var nChars := Min(|buf| - offset, cap);
      var call := WriteFrame(offset, nChars, lim, charSize, reply);
      var c := WriteCalls(buf, offset, cap, lim, charSize, replies, k);
      var e := WriteExit(|buf|, offset, cap, written, replies, k);
      && |c| > 0 && c[0] == call
      && (Fatal(reply) ==> c == [call] && e == Returned(CallFailure(reply)))
      && (!Fatal(reply) ==>
            && c == [call] + WriteCalls(buf, NextOffset(offset, nChars, reply), cap, lim, charSize, replies, k + 1)
            && e == WriteExit(|buf|, NextOffset(offset, nChars, reply), cap, NextWritten(written, reply), replies, k + 1))
  {
  }

  /** The characters a call copied from the caller's buffer (none for a
      span outside it, which no call of the loop has: see WriteCallsShaped). */
  function Payload<E>(buf: seq<E>, call: WriteCall): seq<E>
  {
    if call.offset + call.length <= |buf| then buf[call.offset..call.offset + call.length] else []
  }

  /** The characters of the calls the server accepted, in order. */
  function Delivered<E>(buf: seq<E>, calls: seq<WriteCall>): seq<E>
  {
    if calls == [] then []
    else (if Accepted(calls[0].reply) then Payload(buf, calls[0]) else []) + Delivered(buf, calls[1..])
  }

  /** The sum of the counts the server reported for accepted calls. */
  function AcceptedCount(calls: seq<WriteCall>): nat
  {
    if calls == [] then 0
    else (if Accepted(calls[0].reply) then calls[0].reply.written else 0) + AcceptedCount(calls[1..])
  }

  lemma DeliveredCons<E>(buf: seq<E>, call: WriteCall, t: seq<WriteCall>)
    ensures Accepted(call.reply) ==> Delivered(buf, [call] + t) == Payload(buf, call) + Delivered(buf, t)
    ensures !Accepted(call.reply) ==> Delivered(buf, [call] + t) == Delivered(buf, t)
  {
    assert ([call] + t)[1..] == t;
    assert [] + Delivered(buf, t) == Delivered(buf, t);
  }

  /** A frame followed by a prefix of the rest is a prefix of the frame
      followed by the rest. */
  lemma PrefixAfterFrame<E>(buf: seq<E>, offset: nat, next: nat, d: seq<E>)
    requires offset <= next <= |buf| && d <= buf[next..]
    ensures buf[offset..next] + d <= buf[offset..]
    ensures d == buf[next..] ==> buf[offset..next] + d == buf[offset..]
  {
    assert buf[offset..] == buf[offset..next] + buf[next..];
  }

  lemma AcceptedCountCons(call: WriteCall, t: seq<WriteCall>)
    ensures AcceptedCount([call] + t) == (if Accepted(call.reply) then call.reply.written else 0) + AcceptedCount(t)
  {
    assert ([call] + t)[1..] == t;
  }

  /** Call i is answered by reply k + i of the script, and the run is
      Blocked only once every reply has been used. */
  lemma {:induction false} WriteCallsFollowReplies<E>(buf: seq<E>, offset: nat, cap: nat, lim: FrameLimits,
                                                      charSize: nat, written: Dword, replies: seq<Reply>, k: nat)
    requires k <= |replies|
    ensures var c := WriteCalls(buf, offset, cap, lim, charSize, replies, k);
      && |c| <= |replies| - k
      && (WriteExit(|buf|, offset, cap, written, replies, k) == Blocked ==> |c| == |replies| - k)
      && forall i :: 0 <= i < |c| ==> c[i].reply == replies[k + i]
    decreases |replies| - k
  {
    var c := WriteCalls(buf, offset, cap, lim, charSize, replies, k);
    if offset < |buf| && k < |replies| {
      var reply := replies[k];
      var nChars := Min(|buf| - offset, cap);
      WriteStep(buf, offset, cap, lim, charSize, written, replies, k);
      if !Fatal(reply) {
        var next := NextOffset(offset, nChars, reply);
        var t := WriteCalls(buf, next, cap, lim, charSize, replies, k + 1);
        WriteCallsFollowReplies(buf, next, cap, lim, charSize, NextWritten(written, reply), replies, k + 1);
        forall i | 1 <= i < |c| ensures c[i] == t[i - 1] {
        }
      }
    }
  }

  /** A call carries, from where lpBuffer points, between one character and
      one frame's capacity, in a message sized for exactly that frame that
      fits the heap request. */
  predicate WriteCallShaped(count: nat, lim: FrameLimits, charSize: nat, call: WriteCall)
    requires lim.Valid() && 1 <= charSize <= 2
  {
    && 1 <= call.length <= lim.Capacity(charSize)
    && call.offset + call.length <= count
    && call.messageSize == lim.CallSize(Bytes(call.length, charSize))
    && call.messageSize <= lim.AllocationSize(count, charSize)
  }

  /** Every call is shaped so: the USHORT nChars never truncates, the
      memcpy never reads outside the caller's buffer, and the message size
      never exceeds the heap request. */
  lemma {:induction false} WriteCallsShaped<E>(buf: seq<E>, offset: nat, lim: FrameLimits, charSize: nat,
                                               replies: seq<Reply>, k: nat)
    requires lim.Valid() && 1 <= charSize <= 2
    ensures var c := WriteCalls(buf, offset, lim.Capacity(charSize), lim, charSize, replies, k);
      forall i :: 0 <= i < |c| ==> WriteCallShaped(|buf|, lim, charSize, c[i])
    decreases |replies| - k
  {
    var cap := lim.Capacity(charSize);
    var c := WriteCalls(buf, offset, cap, lim, charSize, replies, k);
    if offset < |buf| && k < |replies| {
      var reply := replies[k];
      var nChars := Min(|buf| - offset, cap);
      WriteStep(buf, offset, cap, lim, charSize, 0, replies, k);
      FrameFitsAllocation(lim, |buf|, charSize, nChars);
      assert WriteCallShaped(|buf|, lim, charSize, c[0]);
      if !Fatal(reply) {
        var next := NextOffset(offset, nChars, reply);
        var t := WriteCalls(buf, next, cap, lim, charSize, replies, k + 1);
        WriteCallsShaped(buf, next, lim, charSize, replies, k + 1);
        forall i | 1 <= i < |c| ensures c[i] == t[i - 1] {
        }
      }
    }
  }

  /** The accepted frames, concatenated in order, are always a prefix of
      the characters still to write, and all of them once the loop returns
      TRUE: the loop advances by nChars, never by the server's count, so no
      character is skipped or sent twice. */
  lemma {:induction false} WriteDeliversBuffer<E>(buf: seq<E>, offset: nat, cap: nat, lim: FrameLimits,
                                                  charSize: nat, written: Dword, replies: seq<Reply>, k: nat)
    requires offset <= |buf|
    ensures var c := WriteCalls(buf, offset, cap, lim, charSize, replies, k);
      var e := WriteExit(|buf|, offset, cap, written, replies, k);
      && Delivered(buf, c) <= buf[offset..]
      && (e.Returned? && e.outcome.ok ==> Delivered(buf, c) == buf[offset..])
    decreases |replies| - k
  {
    var c := WriteCalls(buf, offset, cap, lim, charSize, replies, k);
    if offset < |buf| && k < |replies| {
      var reply := replies[k];
      var nChars := Min(|buf| - offset, cap);
      WriteStep(buf, offset, cap, lim, charSize, written, replies, k);
      var call := c[0];
      if Fatal(reply) {
        DeliveredCons(buf, call, []);
      } else {
        var next := NextOffset(offset, nChars, reply);
        var t := WriteCalls(buf, next, cap, lim, charSize, replies, k + 1);
        WriteDeliversBuffer(buf, next, cap, lim, charSize, NextWritten(written, reply), replies, k + 1);
        DeliveredCons(buf, call, t);
        if Accepted(reply) {
          PrefixAfterFrame(buf, offset, next, Delivered(buf, t));
        }
      }
    }
  }

  /** On TRUE the count stored through lpNumberOfCharsWritten is the DWORD
      sum of the counts the server reported for accepted frames; pending
      replies contribute nothing. */
  lemma {:induction false} WriteReportsServerCounts<E>(buf: seq<E>, offset: nat, cap: nat, lim: FrameLimits,
                                                       charSize: nat, written: Dword, replies: seq<Reply>, k: nat)
    ensures var c := WriteCalls(buf, offset, cap, lim, charSize, replies, k);
      var e := WriteExit(|buf|, offset, cap, written, replies, k);
      e.Returned? && e.outcome.ok ==> e.outcome.count == Some((written + AcceptedCount(c)) % DWORD_MODULUS)
    decreases |replies| - k
  {
    var c := WriteCalls(buf, offset, cap, lim, charSize, replies, k);
    if offset < |buf| && k < |replies| {
      var reply := replies[k];
      var nChars := Min(|buf| - offset, cap);
      WriteStep(buf, offset, cap, lim, charSize, written, replies, k);
      if !Fatal(reply) {
        var t := WriteCalls(buf, NextOffset(offset, nChars, reply), cap, lim, charSize, replies, k + 1);
        WriteReportsServerCounts(buf, NextOffset(offset, nChars, reply), cap, lim, charSize,
                                 NextWritten(written, reply), replies, k + 1);
        AcceptedCountCons(c[0], t);
        if Accepted(reply) {
          AddDwordThenSum(written, reply.written, AcceptedCount(t));
        }
      }
    } else {
      assert written % DWORD_MODULUS == written;
    }
  }

  /** A STATUS_PENDING reply leaves the frame where it was: the next call
      re-sends the same characters from the same place in a message of the
      same size. */
  lemma {:induction false} WritePendingResends<E>(buf: seq<E>, offset: nat, cap: nat, lim: FrameLimits,
                                                  charSize: nat, written: Dword, replies: seq<Reply>, k: nat)
    ensures var c := WriteCalls(buf, offset, cap, lim, charSize, replies, k);
      forall i :: 0 <= i < |c| - 1 && IsPending(c[i].reply) ==>
        && c[i + 1].offset == c[i].offset
        && c[i + 1].length == c[i].length
        && c[i + 1].messageSize == c[i].messageSize
    decreases |replies| - k
  {
    var c := WriteCalls(buf, offset, cap, lim, charSize, replies, k);
    if offset < |buf| && k < |replies| {
      var reply := replies[k];
      var nChars := Min(|buf| - offset, cap);
      WriteStep(buf, offset, cap, lim, charSize, written, replies, k);
      if !Fatal(reply) {
        var next := NextOffset(offset, nChars, reply);
        var t := WriteCalls(buf, next, cap, lim, charSize, replies, k + 1);
        WritePendingResends(buf, next, cap, lim, charSize, NextWritten(written, reply), replies, k + 1);
        if IsPending(reply) && |t| > 0 {
          WriteStep(buf, offset, cap, lim, charSize, written, replies, k + 1);
        }
        forall i | 0 <= i < |c| - 1 && IsPending(c[i].reply)
          ensures && c[i + 1].offset == c[i].offset
                  && c[i + 1].length == c[i].length
                  && c[i + 1].messageSize == c[i].messageSize
        {
          assert c[i + 1] == t[i];
          if i > 0 {
            assert c[i] == t[i - 1];
          }
        }
      }
    }
  }

  /** The loop never returns right after a pending reply: a returning run
      ends with the frame the server finally answered. */
  lemma {:induction false} WriteNeverReturnsPending<E>(buf: seq<E>, offset: nat, cap: nat, lim: FrameLimits,
                                                       charSize: nat, written: Dword, replies: seq<Reply>, k: nat)
    ensures var c := WriteCalls(buf, offset, cap, lim, charSize, replies, k);
      WriteExit(|buf|, offset, cap, written, replies, k).Returned? && |c| > 0 ==> !IsPending(c[|c| - 1].reply)
    decreases |replies| - k
  {
    var c := WriteCalls(buf, offset, cap, lim, charSize, replies, k);
    if offset < |buf| && k < |replies| {
      var reply := replies[k];
      var nChars := Min(|buf| - offset, cap);
      WriteStep(buf, offset, cap, lim, charSize, written, replies, k);
      if !Fatal(reply) {
        var next := NextOffset(offset, nChars, reply);
        var t := WriteCalls(buf, next, cap, lim, charSize, replies, k + 1);
        WriteNeverReturnsPending(buf, next, cap, lim, charSize, NextWritten(written, reply), replies, k + 1);
        if |t| > 0 {
          assert c[|c| - 1] == t[|t| - 1];
        } else if IsPending(reply) {
          assert next < |buf|;
        }
      }
    }
  }

  /** The loop returns FALSE exactly at a call that fails without being
      pending, the last one: the count is not stored and the last error is
      that call's failure status. A TRUE return sets no error and follows no
      such failure, and the loop never stops on an over-report. */
  lemma {:induction false} WriteFailsOnlyOnFailedCall<E>(buf: seq<E>, offset: nat, cap: nat, lim: FrameLimits,
                                                         charSize: nat, written: Dword, replies: seq<Reply>, k: nat)
    ensures var c := WriteCalls(buf, offset, cap, lim, charSize, replies, k);
      var e := WriteExit(|buf|, offset, cap, written, replies, k);
      && !e.Overrun?
      && (forall i :: 0 <= i < |c| - 1 ==> !Fatal(c[i].reply))
      && (e.Returned? && e.outcome.ok ==>
            e.outcome.lastError == None && forall i :: 0 <= i < |c| ==> !Fatal(c[i].reply))
      && (e.Returned? && !e.outcome.ok ==>
            && |c| > 0
            && Fatal(c[|c| - 1].reply)
            && e.outcome == CallFailure(c[|c| - 1].reply))
    decreases |replies| - k
  {
    var c := WriteCalls(buf, offset, cap, lim, charSize, replies, k);
    if offset < |buf| && k < |replies| {
      var reply := replies[k];
      var nChars := Min(|buf| - offset, cap);
      WriteStep(buf, offset, cap, lim, charSize, written, replies, k);
      if !Fatal(reply) {
        var next := NextOffset(offset, nChars, reply);
        var t := WriteCalls(buf, next, cap, lim, charSize, replies, k + 1);
        WriteFailsOnlyOnFailedCall(buf, next, cap, lim, charSize, NextWritten(written, reply), replies, k + 1);
        forall i | 1 <= i < |c| ensures c[i] == t[i - 1] {
        }
      }
    }
  }

  /** With a server that accepts every frame at once, a write of n
      characters takes exactly ceil(n / capacity) calls and returns TRUE. */
  lemma {:induction false} WriteFrameCount<E>(buf: seq<E>, offset: nat, cap: nat, lim: FrameLimits,
                                              charSize: nat, written: Dword, replies: seq<Reply>, k: nat)
    requires cap >= 1 && offset <= |buf| && k <= |replies|
    requires forall i :: k <= i < |replies| ==> Accepted(replies[i])
    requires |replies| - k >= FrameCount(|buf| - offset, cap)
    ensures var e := WriteExit(|buf|, offset, cap, written, replies, k);
      && e.Returned? && e.outcome.ok
      && |WriteCalls(buf, offset, cap, lim, charSize, replies, k)| == FrameCount(|buf| - offset, cap)
    decreases |replies| - k
  {
    if offset == |buf| {
      assert FrameCount(0, cap) == 0 by { DivIsQuotient(cap - 1, cap, 0); }
    } else {
      var nChars := Min(|buf| - offset, cap);
      FrameCountStep(|buf| - offset, cap);
      assert |buf| - offset - nChars == |buf| - (offset + nChars);
      var reply := replies[k];
      assert Accepted(reply);
      WriteStep(buf, offset, cap, lim, charSize, written, replies, k);
      WriteFrameCount(buf, offset + nChars, cap, lim, charSize, AddDword(written, reply.written), replies, k + 1);
    }
  }

  /** The server is called exactly when the request was allocated and
      there is something to write; a zero-length write still allocates and
      frees the request, makes no call and stores a count of 0. */
  lemma WriteConsoleCallsServer<E>(buf: seq<E>, unicode: bool, lim: FrameLimits, heapOk: bool,
                                   replies: seq<Reply>)
    requires lim.Valid()
    ensures var c := WriteConsoleCalls(buf, unicode, lim, heapOk, replies);
      |c| > 0 <==> heapOk && |buf| > 0 && |replies| > 0
    ensures heapOk && |buf| == 0 ==>
      WriteConsoleExit(|buf|, unicode, lim, heapOk, replies) == Returned(Outcome(true, Some(0), None))
  {
    if heapOk && |buf| > 0 && |replies| > 0 {
      var charSize := CharSize(unicode);
      WriteStep(buf, 0, lim.Capacity(charSize), lim, charSize, 0, replies, 0);
    }
  }

  /** From the start of the call: on TRUE the request was allocated, the
      accepted frames are exactly the caller's buffer, and the count stored
      is the DWORD sum of the server's counts for them. */
  lemma WriteConsoleDeliversBuffer<E>(buf: seq<E>, unicode: bool, lim: FrameLimits, heapOk: bool,
                                      replies: seq<Reply>)
    requires lim.Valid()
    ensures var e := WriteConsoleExit(|buf|, unicode, lim, heapOk, replies);
      var c := WriteConsoleCalls(buf, unicode, lim, heapOk, replies);
      e.Returned? && e.outcome.ok ==>
        && heapOk
        && Delivered(buf, c) == buf
        && e.outcome.count == Some(AcceptedCount(c) % DWORD_MODULUS)
  {
    if heapOk {
      var charSize := CharSize(unicode);
      var cap := lim.Capacity(charSize);
      WriteDeliversBuffer(buf, 0, cap, lim, charSize, 0, replies, 0);
      WriteReportsServerCounts(buf, 0, cap, lim, charSize, 0, replies, 0);
      assert buf[0..] == buf;
    }
  }
}
