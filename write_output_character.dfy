/** IntWriteConsoleOutputCharacter: writes characters at a screen position
    in frames of at most min(nLength, CSRSS_MAX_WRITE_CONSOLE_OUTPUT_CHAR /
    CharSize) characters, advancing by what the server reports it wrote and
    moving the request's Coord to the server's EndCoord after each frame. */
module WriteOutputCharacterDriver {
  import opened ConsoleTypes
  import opened CsrTransport

  /** One CsrClientCallServer call: the request's Coord, the span of the
      caller's buffer copied into the request (where lpCharacter pointed and
      the Length sent), the message size passed, and the server's reply. */
  datatype CharCall = CharCall(offset: nat, coord: Coord, length: nat, messageSize: nat, reply: Reply)

  /** The frame limit the client fixes before the loop:
      min(nLength, CSRSS_MAX_WRITE_CONSOLE_OUTPUT_CHAR / CharSize). */
  function FrameLimit(count: nat, lim: FrameLimits, charSize: nat): (n: nat)
    requires lim.Valid() && 1 <= charSize <= 2
    ensures n <= count && n <= lim.Capacity(charSize)
    ensures count > 0 ==> n > 0
    ensures n == count || n == lim.Capacity(charSize)
  {
    Min(count, lim.Capacity(charSize))
  }

  /** The call made with lpCharacter at element `offset`, a Length of
      `length` characters and the request's Coord at `coord`. */
  function CharFrame(offset: nat, length: nat, lim: FrameLimits, charSize: nat, coord: Coord, reply: Reply): CharCall
  {
    CharCall(offset, coord, length, lim.CallSize(Bytes(length, charSize)), reply)
  }

  /** How the loop ends from the state where lpCharacter points at
      element `offset` of `count`, Written is `written` and the server's
      next reply is replies[k]. */
  function CharExit(count: nat, offset: nat, written: Dword, replies: seq<Reply>, k: nat): Exit
    decreases |replies| - k
  {
    if offset >= count then Returned(Outcome(true, Some(written), None))
    else if k >= |replies| then Blocked
    else if CallFailed(replies[k].transport, replies[k].status) then Returned(CallFailure(replies[k]))
    else if replies[k].written > count - offset then Overrun
    else CharExit(count, offset + replies[k].written, AddDword(written, replies[k].written), replies, k + 1)
  }

  /** The calls the loop makes from the state where lpCharacter points at
      buf[offset], the request's Coord is `coord` and the server's next
      reply is replies[k]; nChars is the frame limit fixed before the loop. */
  function CharCalls<E>(buf: seq<E>, offset: nat, nChars: nat, lim: FrameLimits, charSize: nat,
                        coord: Coord, replies: seq<Reply>, k: nat): seq<CharCall>
    decreases |replies| - k
  {
    if offset >= |buf| || k >= |replies| then []
    else
      var reply := replies[k];
      var call := CharFrame(offset, Min(|buf| - offset, nChars), lim, charSize, coord, reply);
      if CallFailed(reply.transport, reply.status) || reply.written > |buf| - offset then [call]
      else [call] + CharCalls(buf, offset + reply.written, nChars, lim, charSize, reply.endCoord, replies, k + 1)
  }

  /** `target` is the calls already made followed by those CharCalls
      makes from the given state; unfolded one call at a time, as the loop
      makes them. */
  ghost predicate CharReaches(done: seq<CharCall>, count: nat, offset: nat, nChars: nat, lim: FrameLimits,
                              charSize: nat, coord: Coord, replies: seq<Reply>, k: nat, target: seq<CharCall>)
    decreases |replies| - k
  {
    if offset >= count || k >= |replies| then target == done
    else
      var reply := replies[k];
      var call := CharFrame(offset, Min(count - offset, nChars), lim, charSize, coord, reply);
      if CallFailed(reply.transport, reply.status) || reply.written > count - offset then target == done + [call]
      else CharReaches(done + [call], count, offset + reply.written, nChars, lim, charSize, reply.endCoord,
                       replies, k + 1, target)
  }

  /** How IntWriteConsoleOutputCharacter ends: the request allocation, then the loop. */
  function OutputCharacterExit(count: nat, heapOk: bool, replies: seq<Reply>): Exit
  {
    if !heapOk then Returned(NoMemory) else CharExit(count, 0, 0, replies, 0)
  }

  /** The calls IntWriteConsoleOutputCharacter makes, from dwWriteCoord. */
  function OutputCharacterCalls<E>(buf: seq<E>, unicode: bool, lim: FrameLimits, heapOk: bool,
                                   writeCoord: Coord, replies: seq<Reply>): seq<CharCall>
    requires lim.Valid()
  {
    if !heapOk then []
    else
      var charSize := CharSize(unicode);
      CharCalls(buf, 0, FrameLimit(|buf|, lim, charSize), lim, charSize, writeCoord, replies, 0)
  }

  /** The client code, with the heap request tracked by its ghost ledger.
      Where the server reports more characters than remain, the source
      wraps the DWORD nLength and reads past the caller's buffer; the model
      stops there with Overrun. */
  method IntWriteConsoleOutputCharacter<E>(buf: seq<E>, unicode: bool, lim: FrameLimits, heapOk: bool,
                                           writeCoord: Coord, replies: seq<Reply>)
    returns (exit: Exit, calls: seq<CharCall>, ghost own: Ownership)
    requires lim.Valid()
    ensures exit == OutputCharacterExit(|buf|, heapOk, replies)
    ensures calls == OutputCharacterCalls(buf, unicode, lim, heapOk, writeCoord, replies)
    ensures own.acquired == (if heapOk then 1 else 0)
    ensures exit.Returned? ==> own.Balanced()
    ensures !exit.Returned? ==> own.released == 0
  {
    var charSize := CharSize(unicode);
    var nChars := FrameLimit(|buf|, lim, charSize);
    calls := [];
    own := Ownership(0, 0);
    if !heapOk {
      exit := Returned(NoMemory);
      return;
    }
    own := own.Acquire();
    ghost var target := OutputCharacterCalls(buf, unicode, lim, heapOk, writeCoord, replies);
    CharReachesCalls([], buf, 0, nChars, lim, charSize, writeCoord, replies, 0, target);
    var coord := writeCoord;
    var nLength: nat := |buf|;
    var offset: nat := 0;
    var written: Dword := 0;
    var k := 0;
    while nLength > 0
      invariant offset + nLength == |buf| && k <= |replies|
      invariant own == Ownership(1, 0)
      invariant OutputCharacterExit(|buf|, heapOk, replies) == CharExit(|buf|, offset, written, replies, k)
      invariant CharReaches(calls, |buf|, offset, nChars, lim, charSize, coord, replies, k, target)
      decreases |replies| - k
    {
      if k == |replies| {
        exit := Blocked;
        return;
      }
      var length := Min(nLength, nChars);
      var reply := replies[k];
      var call := CharFrame(offset, length, lim, charSize, coord, reply);
      if CallFailed(reply.transport, reply.status) || reply.written > nLength {
        CharTraceStop(calls, buf, offset, nChars, lim, charSize, coord, written, replies, k, target, length);
      } else {
        CharTraceAdvance(calls, buf, offset, nChars, lim, charSize, coord, written, replies, k, target, length);
      }
      k := k + 1;
      calls := calls + [call];
      if CallFailed(reply.transport, reply.status) {
        own := own.Release();
        exit := Returned(CallFailure(reply));
        return;
      }
      if reply.written > nLength {
        exit := Overrun;
        return;
      }
      nLength := nLength - reply.written;
      offset := offset + reply.written;
      written := AddDword(written, reply.written);
      coord := reply.endCoord;
    }
    exit := Returned(Outcome(true, Some(written), None));
    own := own.Release();
  }

  /** CharReaches says what it is meant to: the calls made so far
      followed by CharCalls from the same state. */
  lemma {:induction false} CharReachesCalls<E>(done: seq<CharCall>, buf: seq<E>, offset: nat, nChars: nat,
                                               lim: FrameLimits, charSize: nat, coord: Coord,
                                               replies: seq<Reply>, k: nat, target: seq<CharCall>)
    ensures CharReaches(done, |buf|, offset, nChars, lim, charSize, coord, replies, k, target)
            <==> target == done + CharCalls(buf, offset, nChars, lim, charSize, coord, replies, k)
    decreases |replies| - k
  {
    if offset >= |buf| || k >= |replies| {
      assert done + [] == done;
    } else {
      var reply := replies[k];
      var call := CharFrame(offset, Min(|buf| - offset, nChars), lim, charSize, coord, reply);
      if !(CallFailed(reply.transport, reply.status) || reply.written > |buf| - offset) {
        var rest := CharCalls(buf, offset + reply.written, nChars, lim, charSize, reply.endCoord, replies, k + 1);
        CharReachesCalls(done + [call], buf, offset + reply.written, nChars, lim, charSize, reply.endCoord,
                         replies, k + 1, target);
        assert (done + [call]) + rest == done + ([call] + rest);
      }
    }
  }

  /** One turn of the loop that goes on to the next frame. */
  lemma CharTraceAdvance<E>(done: seq<CharCall>, buf: seq<E>, offset: nat, nChars: nat, lim: FrameLimits,
                            charSize: nat, coord: Coord, written: Dword, replies: seq<Reply>, k: nat,
                            target: seq<CharCall>, length: nat)
    requires offset < |buf| && k < |replies| && length == Min(|buf| - offset, nChars)
    requires !CallFailed(replies[k].transport, replies[k].status) && replies[k].written <= |buf| - offset
    requires CharReaches(done, |buf|, offset, nChars, lim, charSize, coord, replies, k, target)
    ensures CharReaches(done + [CharFrame(offset, length, lim, charSize, coord, replies[k])], |buf|,
                        offset + replies[k].written, nChars, lim, charSize, replies[k].endCoord, replies, k + 1, target)
    ensures CharExit(|buf|, offset, written, replies, k)
            == CharExit(|buf|, offset + replies[k].written, AddDword(written, replies[k].written), replies, k + 1)
  {
  }

  /** One turn of the loop that stops it: a failed call or an over-report. */
  lemma CharTraceStop<E>(done: seq<CharCall>, buf: seq<E>, offset: nat, nChars: nat, lim: FrameLimits,
                         charSize: nat, coord: Coord, written: Dword, replies: seq<Reply>, k: nat,
                         target: seq<CharCall>, length: nat)
    requires offset < |buf| && k < |replies| && length == Min(|buf| - offset, nChars)
    requires CallFailed(replies[k].transport, replies[k].status) || replies[k].written > |buf| - offset
    requires CharReaches(done, |buf|, offset, nChars, lim, charSize, coord, replies, k, target)
    ensures target == done + [CharFrame(offset, length, lim, charSize, coord, replies[k])]
    ensures CharExit(|buf|, offset, written, replies, k)
            == if CallFailed(replies[k].transport, replies[k].status) then Returned(CallFailure(replies[k]))
               else Overrun
  {
  }

  /** One turn of the loop with characters left and a reply to read: the
      call it makes, and what both halves of the specification do next. */
  lemma CharStep<E>(buf: seq<E>, offset: nat, nChars: nat, lim: FrameLimits, charSize: nat,
                    coord: Coord, written: Dword, replies: seq<Reply>, k: nat)
    requires offset < |buf| && k < |replies|
    ensures var reply := replies[k];
      var call := CharFrame(offset, Min(|buf| - offset, nChars), lim, charSize, coord, reply);
      var c := CharCalls(buf, offset, nChars, lim, charSize, coord, replies, k);
      var e := CharExit(|buf|, offset, written, replies, k);
      && |c| > 0 && c[0] == call
      && (CallFailed(reply.transport, reply.status) ==> c == [call] && e == Returned(CallFailure(reply)))
      && (!CallFailed(reply.transport, reply.status) && reply.written > |buf| - offset ==>
            c == [call] && e == Overrun)
      && (!CallFailed(reply.transport, reply.status) && reply.written <= |buf| - offset ==>
            && c == [call] + CharCalls(buf, offset + reply.written, nChars, lim, charSize, reply.endCoord, replies, k + 1)
            && e == CharExit(|buf|, offset + reply.written, AddDword(written, reply.written), replies, k + 1))
  {
  }

  /** A call carries, from where lpCharacter points, between one character
      and the frame limit, in a message sized for exactly that frame that
      fits the heap request. */
  predicate CharCallShaped<E>(buf: seq<E>, lim: FrameLimits, charSize: nat, call: CharCall)
    requires lim.Valid() && 1 <= charSize <= 2
  {
    && 1 <= call.length <= FrameLimit(|buf|, lim, charSize)
    && call.offset + call.length <= |buf|
    && call.messageSize == lim.CallSize(Bytes(call.length, charSize))
    && call.messageSize <= lim.AllocationSize(|buf|, charSize)
  }

  /** Every call carries, from where lpCharacter points, between one
      character and the frame limit, in a message that fits the heap request. */
  lemma {:induction false} CharCallsShaped<E>(buf: seq<E>, offset: nat, lim: FrameLimits, charSize: nat,
                                              coord: Coord, replies: seq<Reply>, k: nat)
    requires lim.Valid() && 1 <= charSize <= 2
    ensures var c := CharCalls(buf, offset, FrameLimit(|buf|, lim, charSize), lim, charSize, coord, replies, k);
      forall i :: 0 <= i < |c| ==> CharCallShaped(buf, lim, charSize, c[i])
    decreases |replies| - k
  {
    var nChars := FrameLimit(|buf|, lim, charSize);
    var c := CharCalls(buf, offset, nChars, lim, charSize, coord, replies, k);
    if offset < |buf| && k < |replies| {
      var reply := replies[k];
      CharStep(buf, offset, nChars, lim, charSize, coord, 0, replies, k);
      FrameFitsAllocation(lim, |buf|, charSize, Min(|buf| - offset, nChars));
      assert CharCallShaped(buf, lim, charSize, c[0]);
      if !CallFailed(reply.transport, reply.status) && reply.written <= |buf| - offset {
        var t := CharCalls(buf, offset + reply.written, nChars, lim, charSize, reply.endCoord, replies, k + 1);
        CharCallsShaped(buf, offset + reply.written, lim, charSize, reply.endCoord, replies, k + 1);
        forall i | 1 <= i < |c| ensures c[i] == t[i - 1] {
        }
      }
    }
  }

  /** Call i is answered by reply k + i of the script, and the run is
      Blocked only once every reply has been used. */
  lemma {:induction false} CharCallsFollowReplies<E>(buf: seq<E>, offset: nat, nChars: nat, lim: FrameLimits,
                                                     charSize: nat, coord: Coord, written: Dword,
                                                     replies: seq<Reply>, k: nat)
    requires k <= |replies|
    ensures var c := CharCalls(buf, offset, nChars, lim, charSize, coord, replies, k);
      && |c| <= |replies| - k
      && (CharExit(|buf|, offset, written, replies, k) == Blocked ==> |c| == |replies| - k)
      && forall i :: 0 <= i < |c| ==> c[i].reply == replies[k + i]
    decreases |replies| - k
  {
    var c := CharCalls(buf, offset, nChars, lim, charSize, coord, replies, k);
    if offset < |buf| && k < |replies| {
      var reply := replies[k];
      CharStep(buf, offset, nChars, lim, charSize, coord, written, replies, k);
      if !CallFailed(reply.transport, reply.status) && reply.written <= |buf| - offset {
        var t := CharCalls(buf, offset + reply.written, nChars, lim, charSize, reply.endCoord, replies, k + 1);
        CharCallsFollowReplies(buf, offset + reply.written, nChars, lim, charSize, reply.endCoord,
                               AddDword(written, reply.written), replies, k + 1);
        forall i | 1 <= i < |c| ensures c[i] == t[i - 1] {
        }
      }
    }
  }

  /** The cursor moves by what the server reports, not by what was asked:
      the first call starts at the loop's own position and Coord, and each
      later one where the previous reported count left lpCharacter and at
      the previous reply's EndCoord. Only the last call can have failed. */
  lemma {:induction false} CharCursorFollowsServer<E>(buf: seq<E>, offset: nat, nChars: nat, lim: FrameLimits,
                                                      charSize: nat, coord: Coord, replies: seq<Reply>, k: nat)
    ensures var c := CharCalls(buf, offset, nChars, lim, charSize, coord, replies, k);
      && (|c| > 0 ==> c[0].offset == offset && c[0].coord == coord)
      && forall i :: 0 <= i < |c| - 1 ==>
           && !CallFailed(c[i].reply.transport, c[i].reply.status)
           && c[i + 1].offset == c[i].offset + c[i].reply.written
           && c[i + 1].coord == c[i].reply.endCoord
    decreases |replies| - k
  {
    var c := CharCalls(buf, offset, nChars, lim, charSize, coord, replies, k);
    if offset < |buf| && k < |replies| {
      var reply := replies[k];
      CharStep(buf, offset, nChars, lim, charSize, coord, 0, replies, k);
      if !CallFailed(reply.transport, reply.status) && reply.written <= |buf| - offset {
        var t := CharCalls(buf, offset + reply.written, nChars, lim, charSize, reply.endCoord, replies, k + 1);
        CharCursorFollowsServer(buf, offset + reply.written, nChars, lim, charSize, reply.endCoord, replies, k + 1);
        forall i | 0 <= i < |c| - 1
          ensures && !CallFailed(c[i].reply.transport, c[i].reply.status)
                  && c[i + 1].offset == c[i].offset + c[i].reply.written
                  && c[i + 1].coord == c[i].reply.endCoord
        {
          assert c[i + 1] == t[i];
          if i > 0 {
            assert c[i] == t[i - 1];
          }
        }
      }
    }
  }

  /** The sum of the counts the server reported, over the given calls. */
  function ReportedTotal(calls: seq<CharCall>): nat
  {
    if calls == [] then 0 else calls[0].reply.written + ReportedTotal(calls[1..])
  }

  /** On TRUE the server's reported counts add up to exactly the
      characters that remained, and no error is set. */
  lemma {:induction false} CharReportsCoverBuffer<E>(buf: seq<E>, offset: nat, nChars: nat, lim: FrameLimits,
                                                     charSize: nat, coord: Coord, written: Dword,
                                                     replies: seq<Reply>, k: nat)
    requires offset <= |buf|
    ensures var c := CharCalls(buf, offset, nChars, lim, charSize, coord, replies, k);
      var e := CharExit(|buf|, offset, written, replies, k);
      e.Returned? && e.outcome.ok ==> offset + ReportedTotal(c) == |buf| && e.outcome.lastError == None
    decreases |replies| - k
  {
    var c := CharCalls(buf, offset, nChars, lim, charSize, coord, replies, k);
    if offset < |buf| && k < |replies| {
      var reply := replies[k];
      CharStep(buf, offset, nChars, lim, charSize, coord, written, replies, k);
      if !CallFailed(reply.transport, reply.status) && reply.written <= |buf| - offset {
        var t := CharCalls(buf, offset + reply.written, nChars, lim, charSize, reply.endCoord, replies, k + 1);
        CharReportsCoverBuffer(buf, offset + reply.written, nChars, lim, charSize, reply.endCoord,
                               AddDword(written, reply.written), replies, k + 1);
        ReportedTotalCons(c[0], t);
      }
    }
  }

  /** On TRUE the count stored through lpNumberOfCharsWritten is the DWORD
      Written plus the server's reported counts. */
  lemma {:induction false} CharReportsServerCounts<E>(buf: seq<E>, offset: nat, nChars: nat, lim: FrameLimits,
                                                      charSize: nat, coord: Coord, written: Dword,
                                                      replies: seq<Reply>, k: nat)
    ensures var c := CharCalls(buf, offset, nChars, lim, charSize, coord, replies, k);
      var e := CharExit(|buf|, offset, written, replies, k);
      e.Returned? && e.outcome.ok ==> e.outcome.count == Some((written + ReportedTotal(c)) % DWORD_MODULUS)
    decreases |replies| - k
  {
    var c := CharCalls(buf, offset, nChars, lim, charSize, coord, replies, k);
    if offset < |buf| && k < |replies| {
      var reply := replies[k];
      CharStep(buf, offset, nChars, lim, charSize, coord, written, replies, k);
      if !CallFailed(reply.transport, reply.status) && reply.written <= |buf| - offset {
        var t := CharCalls(buf, offset + reply.written, nChars, lim, charSize, reply.endCoord, replies, k + 1);
        CharReportsServerCounts(buf, offset + reply.written, nChars, lim, charSize, reply.endCoord,
                                AddDword(written, reply.written), replies, k + 1);
        ReportedTotalCons(c[0], t);
        AddDwordThenSum(written, reply.written, ReportedTotal(t));
      }
    } else {
      assert written % DWORD_MODULUS == written;
    }
  }

  lemma ReportedTotalCons(call: CharCall, t: seq<CharCall>)
    ensures ReportedTotal([call] + t) == call.reply.written + ReportedTotal(t)
  {
    assert ([call] + t)[1..] == t;
  }

  /** FALSE is returned only at a failed call, the last one: the count is
      not stored and the last error is that call's failure status. */
  lemma {:induction false} CharFailureReported<E>(buf: seq<E>, offset: nat, nChars: nat, lim: FrameLimits,
                                                  charSize: nat, coord: Coord, written: Dword,
                                                  replies: seq<Reply>, k: nat)
    ensures var c := CharCalls(buf, offset, nChars, lim, charSize, coord, replies, k);
      var e := CharExit(|buf|, offset, written, replies, k);
      e.Returned? && !e.outcome.ok ==>
        && |c| > 0
        && CallFailed(c[|c| - 1].reply.transport, c[|c| - 1].reply.status)
        && e.outcome == CallFailure(c[|c| - 1].reply)
    decreases |replies| - k
  {
    var c := CharCalls(buf, offset, nChars, lim, charSize, coord, replies, k);
    if offset < |buf| && k < |replies| {
      var reply := replies[k];
      CharStep(buf, offset, nChars, lim, charSize, coord, written, replies, k);
      if !CallFailed(reply.transport, reply.status) && reply.written <= |buf| - offset {
        var t := CharCalls(buf, offset + reply.written, nChars, lim, charSize, reply.endCoord, replies, k + 1);
        CharFailureReported(buf, offset + reply.written, nChars, lim, charSize, reply.endCoord,
                            AddDword(written, reply.written), replies, k + 1);
        if |t| > 0 {
          assert c[|c| - 1] == t[|t| - 1];
        }
      }
    }
  }

  /** A server that never reports more than the frame it was sent never
      drives the loop into the DWORD underflow. */
  lemma {:induction false} CharHonestServerNoOverrun<E>(buf: seq<E>, offset: nat, nChars: nat, lim: FrameLimits,
                                                        charSize: nat, coord: Coord, written: Dword,
                                                        replies: seq<Reply>, k: nat)
    ensures var c := CharCalls(buf, offset, nChars, lim, charSize, coord, replies, k);
      (forall i :: 0 <= i < |c| ==> c[i].reply.written <= c[i].length) ==>
        CharExit(|buf|, offset, written, replies, k) != Overrun
    decreases |replies| - k
  {
    var c := CharCalls(buf, offset, nChars, lim, charSize, coord, replies, k);
    if offset < |buf| && k < |replies| {
      var reply := replies[k];
      CharStep(buf, offset, nChars, lim, charSize, coord, written, replies, k);
      assert c[0].length == Min(|buf| - offset, nChars);
      if !CallFailed(reply.transport, reply.status) && reply.written <= |buf| - offset {
        var t := CharCalls(buf, offset + reply.written, nChars, lim, charSize, reply.endCoord, replies, k + 1);
        CharHonestServerNoOverrun(buf, offset + reply.written, nChars, lim, charSize, reply.endCoord,
                                  AddDword(written, reply.written), replies, k + 1);
        if forall i :: 0 <= i < |c| ==> c[i].reply.written <= c[i].length {
          forall i | 0 <= i < |t| ensures t[i].reply.written <= t[i].length {
            assert t[i] == c[i + 1];
          }
        }
      }
    }
  }

  /** A server that accepts every frame whole finishes the buffer in
      FrameCount(remaining, nChars) calls and the run returns TRUE. */
  lemma {:induction false} CharFrameCount<E>(buf: seq<E>, offset: nat, nChars: nat, lim: FrameLimits,
                                             charSize: nat, coord: Coord, written: Dword,
                                             replies: seq<Reply>, k: nat)
    requires nChars >= 1 && offset <= |buf| && k <= |replies|
    requires |replies| - k >= FrameCount(|buf| - offset, nChars)
    ensures var c := CharCalls(buf, offset, nChars, lim, charSize, coord, replies, k);
      (forall i :: 0 <= i < |c| ==>
         !CallFailed(c[i].reply.transport, c[i].reply.status) && c[i].reply.written == c[i].length) ==>
        var e := CharExit(|buf|, offset, written, replies, k);
        e.Returned? && e.outcome.ok && |c| == FrameCount(|buf| - offset, nChars)
    decreases |replies| - k
  {
    var c := CharCalls(buf, offset, nChars, lim, charSize, coord, replies, k);
    if offset == |buf| {
      assert FrameCount(0, nChars) == 0 by { DivIsQuotient(nChars - 1, nChars, 0); }
    } else {
      var len := Min(|buf| - offset, nChars);
      FrameCountStep(|buf| - offset, nChars);
      var reply := replies[k];
      CharStep(buf, offset, nChars, lim, charSize, coord, written, replies, k);
      assert c[0].length == len && c[0].reply == reply;
      if forall i :: 0 <= i < |c| ==>
           !CallFailed(c[i].reply.transport, c[i].reply.status) && c[i].reply.written == c[i].length {
        assert !CallFailed(reply.transport, reply.status) && reply.written == len;
        assert |buf| - offset - len == |buf| - (offset + len);
        var t := CharCalls(buf, offset + len, nChars, lim, charSize, reply.endCoord, replies, k + 1);
        forall i | 0 <= i < |t|
          ensures !CallFailed(t[i].reply.transport, t[i].reply.status) && t[i].reply.written == t[i].length
        {
          assert t[i] == c[i + 1];
        }
        CharFrameCount(buf, offset + len, nChars, lim, charSize, reply.endCoord,
                       AddDword(written, reply.written), replies, k + 1);
      }
    }
  }

  /** Termination: a server that accepts at least one character of every
      frame and never more than the frame ends the run with TRUE, given one
      reply per character still to write. */
  lemma {:induction false} CharProgressFinishes<E>(buf: seq<E>, offset: nat, nChars: nat, lim: FrameLimits,
                                                   charSize: nat, coord: Coord, written: Dword,
                                                   replies: seq<Reply>, k: nat)
    requires offset <= |buf| && k <= |replies|
    requires |replies| - k >= |buf| - offset
    ensures var c := CharCalls(buf, offset, nChars, lim, charSize, coord, replies, k);
      (forall i :: 0 <= i < |c| ==>
         !CallFailed(c[i].reply.transport, c[i].reply.status) && 1 <= c[i].reply.written <= c[i].length) ==>
        var e := CharExit(|buf|, offset, written, replies, k);
        e.Returned? && e.outcome.ok
    decreases |replies| - k
  {
    var c := CharCalls(buf, offset, nChars, lim, charSize, coord, replies, k);
    if offset < |buf| {
      var reply := replies[k];
      CharStep(buf, offset, nChars, lim, charSize, coord, written, replies, k);
      assert c[0].length == Min(|buf| - offset, nChars) && c[0].reply == reply;
      if forall i :: 0 <= i < |c| ==>
           !CallFailed(c[i].reply.transport, c[i].reply.status) && 1 <= c[i].reply.written <= c[i].length {
        assert !CallFailed(reply.transport, reply.status) && 1 <= reply.written <= |buf| - offset;
        var t := CharCalls(buf, offset + reply.written, nChars, lim, charSize, reply.endCoord, replies, k + 1);
        forall i | 0 <= i < |t|
          ensures !CallFailed(t[i].reply.transport, t[i].reply.status) && 1 <= t[i].reply.written <= t[i].length
        {
          assert t[i] == c[i + 1];
        }
        CharProgressFinishes(buf, offset + reply.written, nChars, lim, charSize, reply.endCoord,
                             AddDword(written, reply.written), replies, k + 1);
      }
    }
  }

  /** From the start of the call: on TRUE the count stored is nLength
      itself, the number of characters in the caller's buffer. */
  lemma OutputCharacterCountIsLength<E>(buf: seq<E>, unicode: bool, lim: FrameLimits, heapOk: bool,
                                        writeCoord: Coord, replies: seq<Reply>)
    requires lim.Valid() && |buf| < DWORD_MODULUS
    ensures var e := OutputCharacterExit(|buf|, heapOk, replies);
      e.Returned? && e.outcome.ok ==> heapOk && e.outcome.count == Some(|buf|) && e.outcome.lastError == None
  {
    if heapOk {
      var charSize := CharSize(unicode);
      CharReportsCoverBuffer(buf, 0, FrameLimit(|buf|, lim, charSize), lim, charSize, writeCoord, 0, replies, 0);
      CharReportsServerCounts(buf, 0, FrameLimit(|buf|, lim, charSize), lim, charSize, writeCoord, 0, replies, 0);
    }
  }
}
