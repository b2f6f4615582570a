// The sender as the C code has it: fields updated in place, the current frame in its own
// buffer, frames read out of ring slots. Every method computes the function of the same name
// in NtripTx over the ring's history.
module TxSender {
  import opened Words
  import opened RtcmScan
  import opened FrameRing
  import Spec = NtripTx

  class Tx {
    var cursorSeq: nat
    var cumThrough: nat
    const current: array<Byte>
    var currentLen: nat
    var currentOff: nat
    var currentReceivedMs: nat
    var lastProgressMs: nat

    var totals: Spec.Counters

    ghost var log: Spec.Log

    ghost predicate Valid()
      reads this
    {
      current.Length == RTCM_MAX_FRAME_B && currentOff <= currentLen <= current.Length
    }

    // The value this object stands for.
    ghost function Model(): Spec.Sender
      requires Valid()
      reads this, current
    {
      Spec.Sender(cursorSeq, cumThrough, current[..currentLen], currentOff, currentReceivedMs, lastProgressMs,
                  totals, log)
    }

    ghost predicate Follows(ring: Ring)
      reads this, current, ring, ring.slot
    {
      Valid() && ring.Valid() && Spec.CursorOk(Model(), ring.history)
    }

    constructor ()
      ensures Valid() && Model() == Spec.INIT_SENDER && fresh(current)
    {
      current := new Byte[RTCM_MAX_FRAME_B](i => 0);
      cursorSeq, cumThrough, currentLen, currentOff, currentReceivedMs, lastProgressMs := 0, 0, 0, 0, 0, 0;
      totals := Spec.INIT_SENDER.totals;
      log := Spec.Log([], [], 0, []);
    }

    method Abort()
      requires Valid()
      modifies this
      ensures Valid() && Model() == Spec.Abort(old(Model()))
    {
      if currentOff < currentLen {
        totals := totals.(droppedBytes := totals.droppedBytes + (currentLen - currentOff));
      }
      currentLen := 0;
      currentOff := 0;
    }

    method ResetConn(ring: Ring, nowMs: nat)
      requires Follows(ring)
      modifies this
      ensures Follows(ring) && Model() == Spec.ResetConn(old(Model()), ring.history, nowMs)
    {
      hide CumBytes;
      ghost var h := ring.history;
      assert h[..|h|] == h;
      CumBytesMonotone(h, cursorSeq);
      Abort();
      // The new connection starts behind everything pushed so far.
      if cursorSeq < ring.nextSeq {
        totals := totals.(skippedFrames := totals.skippedFrames + (ring.nextSeq - cursorSeq));
        totals := totals.(skippedBytes := totals.skippedBytes + (ring.cumBytes - cumThrough));
      }
      log := Spec.Log([], [], |h|, log.fate + Spec.Repeat(Spec.Skipped, |h| - cursorSeq));
      cursorSeq := ring.nextSeq;
      cumThrough := ring.cumBytes;
      lastProgressMs := nowMs;
    }

    // Skip what was overwritten before this sender came to it, and count it from the slot.
    method JumpToOldest(ring: Ring)
      requires Follows(ring)
      modifies this
      ensures Follows(ring) && Model() == Spec.JumpToOldest(old(Model()), ring.history)
    {
      ghost var h := ring.history;
      var oldest := OldestSeq(ring.nextSeq);
      if cursorSeq < oldest {
        var o := ring.Lookup(oldest);
        CumBytesNext(h, oldest);
        CumBytesMonotone(h[..oldest], cursorSeq);
        assert h[..oldest][..cursorSeq] == h[..cursorSeq];
        var cumBeforeOldest := o.cumBytes - o.len;
        log := log.(fate := log.fate + Spec.Repeat(Spec.Skipped, oldest - cursorSeq));
        totals := totals.(skippedBytes := totals.skippedBytes + (cumBeforeOldest - cumThrough));
        totals := totals.(skippedFrames := totals.skippedFrames + (oldest - cursorSeq));
        cumThrough := cumBeforeOldest;
        cursorSeq := oldest;
      }
    }

    // memcpy out of the slot.
    method CopyFrame(s: Slot)
      requires Valid() && s.len <= |s.data| && s.len <= current.Length
      modifies current
      ensures current[..s.len] == s.data[..s.len]
    {
      forall i | 0 <= i < s.len { current[i] := s.data[i]; }
    }

    method DropStale(s: Slot, ghost h: seq<Entry>)
      requires Valid() && Spec.CursorOk(Model(), h) && cursorSeq < |h| && Holds(s, h, cursorSeq)
      modifies this
      ensures Valid() && Model() == Spec.DropStale(old(Model()), h) && cursorSeq == old(cursorSeq) + 1
    {
      hide CumBytes;
      totals := totals.(droppedFramesStale := totals.droppedFramesStale + 1);
      totals := totals.(droppedStaleBytes := totals.droppedStaleBytes + s.len);
      cumThrough := s.cumBytes;
      cursorSeq := cursorSeq + 1;
      log := log.(fate := log.fate + [Spec.Stale]);
    }

    method Load(s: Slot, nowMs: nat, ghost h: seq<Entry>)
      requires Valid() && Spec.CursorOk(Model(), h) && cursorSeq < |h| && Holds(s, h, cursorSeq)
      modifies this, current
      ensures Valid() && Model() == Spec.Load(old(Model()), h, nowMs)
    {
      hide CumBytes;
      var age := Spec.Elapsed(nowMs, s.receivedMs);
      assert PushableLen(|h[cursorSeq].bytes|);
      CopyFrame(s);
      currentLen := s.len;
      currentOff := 0;
      currentReceivedMs := s.receivedMs;
      // Idle time up to here does not count against this frame.
      lastProgressMs := nowMs;
      totals := totals.(copiedBytes := totals.copiedBytes + s.len);
      cumThrough := s.cumBytes;
      log := log.(taken := log.taken + [cursorSeq], fate := log.fate + [Spec.Copied]);
      cursorSeq := cursorSeq + 1;
      if age > totals.maxQueueAgeMs {
        totals := totals.(maxQueueAgeMs := age);
      }
    }

    // One critical section of the ring lock.
    method CopyNext(ring: Ring, nowMs: nat, staleMs: nat) returns (copied: bool)
      requires Follows(ring)
      modifies this, current
      ensures Follows(ring)
      ensures (Model(), copied) == Spec.CopyNext(old(Model()), ring.history, nowMs, staleMs)
    {
      hide CumBytes, Spec.Load, Spec.DropStale;
      ghost var h := ring.history;
      JumpToOldest(ring);
      ghost var start := Model();
      while cursorSeq < ring.nextSeq
        invariant Follows(ring) && ring.history == h && OldestSeq(|h|) <= cursorSeq
        invariant Spec.TakeEligible(Model(), h, nowMs, staleMs) == Spec.TakeEligible(start, h, nowMs, staleMs)
        decreases ring.nextSeq - cursorSeq
      {
        var s := ring.Lookup(cursorSeq);
        var age := Spec.Elapsed(nowMs, s.receivedMs);
        if staleMs > 0 && age > staleMs {
          DropStale(s, h);
          continue;
        }
        Load(s, nowMs, h);
        return true;
      }
      return false;
    }

    // The stack took n bytes.
    method Advance(n: nat, nowMs: nat)
      requires Valid() && 0 < n <= currentLen - currentOff
      modifies this
      ensures Valid() && cursorSeq == old(cursorSeq) && cumThrough == old(cumThrough)
      ensures (Model(), Spec.Continue) == Spec.SendOnce(old(Model()), Spec.Accept(n), nowMs)
    {
      log := log.(wire := log.wire + current[..currentLen][currentOff..currentOff + n]);
      currentOff := currentOff + n;
      totals := totals.(acceptedToLwip := totals.acceptedToLwip + n);
      lastProgressMs := nowMs;
      if currentOff == currentLen {
        totals := totals.(sentFrames := totals.sentFrames + 1);
        currentLen := 0;
        currentOff := 0;
      }
    }

    // One call of the send callback and what the sender makes of it.
    method SendOnce(outcome: Spec.SendOutcome, nowMs: nat) returns (v: Spec.Verdict)
      requires Valid() && currentOff < currentLen
      modifies this
      ensures Valid() && (Model(), v) == Spec.SendOnce(old(Model()), outcome, nowMs)
      ensures cursorSeq == old(cursorSeq) && cumThrough == old(cumThrough)
    {
      var offered := currentLen - currentOff;
      if outcome.Accept? && outcome.room > 0 {
        var n := Spec.Min(outcome.room, offered);
        Advance(n, nowMs);
        return Spec.Continue;
      }
      if Spec.IsWouldBlock(outcome) {
        totals := totals.(eagainCount := totals.eagainCount + 1);
        return Spec.Return(Spec.WouldBlock);
      }
      totals := totals.(lastSockErrno := if outcome.Refuse? then outcome.errno else Spec.ECONNRESET);
      Abort();
      return Spec.Return(Spec.Error);
    }

    // At most maxSends send calls; outcomes[k] is what the k-th of them will do.
    method Poll(ring: Ring, nowMs: nat, maxSends: int, staleMs: nat, outcomes: seq<Spec.SendOutcome>)
      returns (result: Spec.PollResult)
      requires Follows(ring) && maxSends <= |outcomes|
      modifies this, current
      ensures Follows(ring)
      ensures (Model(), result) ==
              Spec.Poll(old(Model()), ring.history, nowMs, staleMs,
                        outcomes[..if maxSends < 0 then 0 else maxSends], Spec.Idle)
    {
      ghost var h := ring.history;
      var rounds := if maxSends < 0 then 0 else maxSends;
      ghost var sends := outcomes[..rounds];
      ghost var goal := Spec.Poll(Model(), h, nowMs, staleMs, sends, Spec.Idle);
      result := Spec.Idle;
      assert sends[0..] == sends;
      for round := 0 to rounds
        invariant Follows(ring)
        invariant Spec.Poll(Model(), h, nowMs, staleMs, sends[round..], result) == goal
      {
        if currentOff >= currentLen {
          var copied := CopyNext(ring, nowMs, staleMs);
          if !copied {
            return;
          }
        }
        assert sends[round..][0] == outcomes[round] && sends[round..][1..] == sends[round + 1..];
        var v := SendOnce(outcomes[round], nowMs);
        if v.Return? {
          return v.result;
        }
        result := Spec.Progress;
      }
    }

    method Stalled(nowMs: nat, timeoutMs: nat) returns (b: bool)
      requires Valid()
      ensures b == Spec.Stalled(Model(), nowMs, timeoutMs)
    {
      if currentOff >= currentLen {
        return false;
      }
      return Spec.Elapsed(nowMs, lastProgressMs) > timeoutMs;
    }

    method FrameOverdue(nowMs: nat, deadlineMs: nat) returns (b: bool)
      requires Valid()
      ensures b == Spec.FrameOverdue(Model(), nowMs, deadlineMs)
    {
      if currentOff >= currentLen {
        return false;
      }
      return Spec.Elapsed(nowMs, currentReceivedMs) > deadlineMs;
    }
  }
}
