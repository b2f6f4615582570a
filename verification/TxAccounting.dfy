// What every sender keeps, whatever its socket and the ring do: exact accounting of every frame
// and byte, and a wire that carries whole frames followed by the beginning of one more.
module TxAccounting {
  import opened Words
  import opened RtcmScan
  import opened FrameRing
  import opened NtripTx

  // ------------------------------------------------------------- accounting

  function FateCount(fate: seq<Fate>, f: Fate): nat
  {
    if fate == [] then 0
    else FateCount(fate[..|fate| - 1], f) + (if fate[|fate| - 1] == f then 1 else 0)
  }

  // Bytes of the frames with a given fate.
  function FateBytes(fate: seq<Fate>, h: seq<Entry>, f: Fate): nat
    requires |fate| <= |h|
  {
    if fate == [] then 0
    else FateBytes(fate[..|fate| - 1], h, f) + (if fate[|fate| - 1] == f then |h[|fate| - 1].bytes| else 0)
  }

  // Every frame below the cursor has one fate, and every counter is the sum over its fate.
  predicate Accounted(s: Sender, h: seq<Entry>)
  {
    && CursorOk(s, h)
    && |s.log.fate| == s.cursorSeq
    && s.currentOff <= |s.current|
    && var c := s.totals;
       && c.skippedFrames == FateCount(s.log.fate, Skipped)
       && c.droppedFramesStale == FateCount(s.log.fate, Stale)
       && c.copiedBytes == FateBytes(s.log.fate, h, Copied)
       && c.skippedBytes == FateBytes(s.log.fate, h, Skipped)
       && c.droppedStaleBytes == FateBytes(s.log.fate, h, Stale)
       && c.copiedBytes == c.acceptedToLwip + Pending(s) + c.droppedBytes
  }

  // The counters are sizes of disjoint sets of sequence numbers.
  lemma {:induction false} FateCountIsSize(fate: seq<Fate>, f: Fate)
    ensures FateCount(fate, f) == |set i | 0 <= i < |fate| && fate[i] == f|
  {
    var all := set i | 0 <= i < |fate| && fate[i] == f;
    if fate != [] {
      var n := |fate| - 1;
      var prev := set i | 0 <= i < n && fate[..n][i] == f;
      FateCountIsSize(fate[..n], f);
      if fate[n] == f {
        assert all == prev + {n};
      } else {
        assert all == prev;
      }
    } else {
      assert all == {};
    }
  }

  lemma {:induction false} FatesPartitionBytes(fate: seq<Fate>, h: seq<Entry>)
    requires |fate| <= |h|
    ensures FateBytes(fate, h, Copied) + FateBytes(fate, h, Skipped) + FateBytes(fate, h, Stale)
         == CumBytes(h[..|fate|])
  {
    if fate != [] {
      FatesPartitionBytes(fate[..|fate| - 1], h);
      assert h[..|fate|][..|fate| - 1] == h[..|fate| - 1];
    }
  }

  // Every pushed byte is accepted, pending, dropped, skipped, dropped as stale, or still ahead.
  lemma BytesConserved(s: Sender, h: seq<Entry>)
    requires Accounted(s, h)
    ensures var c := s.totals;
            c.acceptedToLwip + Pending(s) + c.droppedBytes + c.skippedBytes + c.droppedStaleBytes
              + (CumBytes(h) - s.cumThrough) == CumBytes(h)
    ensures s.cumThrough == CumBytes(h[..s.cursorSeq]) <= CumBytes(h)
  {
    FatesPartitionBytes(s.log.fate, h);
    CumBytesMonotone(h, s.cursorSeq);
  }

  lemma {:induction false} FateBytesExtend(fate: seq<Fate>, h: seq<Entry>, g: seq<Entry>, f: Fate)
    requires |fate| <= |h| && h <= g
    ensures FateBytes(fate, h, f) == FateBytes(fate, g, f)
  {
    if fate != [] {
      FateBytesExtend(fate[..|fate| - 1], h, g, f);
    }
  }

  lemma AppendFate(fate: seq<Fate>, h: seq<Entry>, f: Fate, g: Fate)
    requires |fate| < |h|
    ensures FateCount(fate + [f], g) == FateCount(fate, g) + (if f == g then 1 else 0)
    ensures FateBytes(fate + [f], h, g) == FateBytes(fate, h, g) + (if f == g then |h[|fate|].bytes| else 0)
  {
    assert (fate + [f])[..|fate|] == fate;
  }

  lemma {:induction false} AppendRun(fate: seq<Fate>, h: seq<Entry>, n: nat, g: Fate)
    requires |fate| + n <= |h|
    ensures var more := fate + Repeat(Skipped, n);
            && FateCount(more, g) == FateCount(fate, g) + (if g == Skipped then n else 0)
            && FateBytes(more, h, g) == FateBytes(fate, h, g)
                 + (if g == Skipped then CumBytes(h[..|fate| + n]) - CumBytes(h[..|fate|]) else 0)
  {
    hide FateCount, FateBytes, CumBytes;
    if n == 0 {
      assert fate + Repeat(Skipped, 0) == fate;
    } else {
      var less := fate + Repeat(Skipped, n - 1);
      AppendRun(fate, h, n - 1, g);
      assert fate + Repeat(Skipped, n) == less + [Skipped];
      AppendFate(less, h, Skipped, g);
      CumBytesNext(h, |fate| + n - 1);
    }
  }

  // ---------------------------------------------------------------- the wire

  predicate Increasing(ks: seq<nat>)
  {
    forall i, j :: 0 <= i < j < |ks| ==> ks[i] < ks[j]
  }

  predicate Within(ks: seq<nat>, n: nat)
  {
    forall i :: 0 <= i < |ks| ==> ks[i] < n
  }

  function FramesAt(h: seq<Entry>, ks: seq<nat>): (r: seq<seq<Byte>>)
    requires Within(ks, |h|)
    ensures |r| == |ks|
  {
    seq(|ks|, i requires 0 <= i < |ks| => h[ks[i]].bytes)
  }

  // Bytes of all frames copied on this connection but the last one.
  function Front(l: Log, h: seq<Entry>): seq<Byte>
    requires Within(l.taken, |h|) && l.taken != []
  {
    Flatten(FramesAt(h, l.taken[..|l.taken| - 1]))
  }

  function Last(l: Log, h: seq<Entry>): seq<Byte>
    requires Within(l.taken, |h|) && l.taken != []
  {
    h[l.taken[|l.taken| - 1]].bytes
  }

  // The wire is the frames taken, in order, the last one possibly cut short.
  predicate WireClean(l: Log, h: seq<Entry>)
  {
    && Increasing(l.taken) && Within(l.taken, |h|)
    && if l.taken == [] then l.wire == []
       else
         var front, last := Front(l, h), Last(l, h);
         && |front| <= |l.wire| <= |front| + |last|
         && l.wire == front + last[..|l.wire| - |front|]
  }

  // Everything taken was pushed after the connection was made, is below the cursor and counted
  // as copied.
  predicate TakenCopied(s: Sender)
  {
    && s.log.since <= |s.log.fate|
    && Within(s.log.taken, |s.log.fate|)
    && (forall i :: 0 <= i < |s.log.taken| ==> s.log.since <= s.log.taken[i])
    && forall i :: 0 <= i < |s.log.taken| ==> s.log.fate[s.log.taken[i]] == Copied
  }

  // On an open connection the current frame is the last one taken, cut where the wire ends, and
  // its age is the age of that frame since it was received.
  predicate InStep(s: Sender, h: seq<Entry>)
    requires WireClean(s.log, h)
  {
    if HasPending(s) then
      && s.log.taken != [] && s.current == Last(s.log, h)
      && s.currentOff == |s.log.wire| - |Front(s.log, h)|
      && s.currentReceivedMs == h[s.log.taken[|s.log.taken| - 1]].receivedMs
    else
      && s.current == [] && s.currentOff == 0
      && (s.log.taken != [] ==> |s.log.wire| == |Front(s.log, h)| + |Last(s.log, h)|)
  }

  // The invariant of a sender; `open` says whether its connection can still send.
  predicate SenderOk(s: Sender, h: seq<Entry>, open: bool)
  {
    && Accounted(s, h) && WireClean(s.log, h) && TakenCopied(s)
    && (open ==> InStep(s, h))
    && (!open ==> s.current == [] && s.currentOff == 0)
  }

  lemma InitOk()
    ensures SenderOk(INIT_SENDER, [], false)
  {
  }

  // Nothing a sender knows depends on frames pushed later.
  lemma PushOk(s: Sender, h: seq<Entry>, e: Entry, open: bool)
    requires SenderOk(s, h, open) && PushableLen(|e.bytes|)
    ensures SenderOk(s, h + [e], open)
  {
    var g := h + [e];
    assert g[..s.cursorSeq] == h[..s.cursorSeq];
    FateBytesExtend(s.log.fate, h, g, Copied);
    FateBytesExtend(s.log.fate, h, g, Skipped);
    FateBytesExtend(s.log.fate, h, g, Stale);
    if s.log.taken != [] {
      assert FramesAt(g, s.log.taken[..|s.log.taken| - 1]) == FramesAt(h, s.log.taken[..|s.log.taken| - 1]);
    }
  }

  lemma AbortOk(s: Sender, h: seq<Entry>, open: bool)
    requires SenderOk(s, h, open)
    ensures SenderOk(Abort(s), h, false)
  {
  }

  lemma CloseOk(s: Sender, h: seq<Entry>, open: bool)
    requires SenderOk(s, h, open)
    ensures SenderOk(CloseConn(s), h, false)
  {
  }

  lemma SkipToOk(s: Sender, h: seq<Entry>, to: nat, open: bool)
    requires SenderOk(s, h, open) && s.cursorSeq <= to <= |h|
    ensures s.cumThrough <= CumBytes(h[..to]) && SenderOk(SkipTo(s, h, to), h, open)
  {
    hide FateBytes, FateCount, Flatten, FramesAt, CumBytes, Front, Last;
    CumBytesMonotone(h[..to], s.cursorSeq);
    assert h[..to][..s.cursorSeq] == h[..s.cursorSeq];
    WireIgnoresFate(s.log, h, SkipTo(s, h, to).log.fate);
    AppendRun(s.log.fate, h, to - s.cursorSeq, Copied);
    AppendRun(s.log.fate, h, to - s.cursorSeq, Skipped);
    AppendRun(s.log.fate, h, to - s.cursorSeq, Stale);
  }

  lemma ResetOk(s: Sender, h: seq<Entry>, now: nat)
    requires SenderOk(s, h, false)
    ensures SenderOk(ResetConn(s, h, now), h, true)
  {
    AbortOk(s, h, false);
    SkipToOk(Abort(s), h, |h|, false);
    assert h[..|h|] == h;
  }

  lemma DropStaleOk(s: Sender, h: seq<Entry>)
    requires SenderOk(s, h, true) && s.cursorSeq < |h|
    ensures SenderOk(DropStale(s, h), h, true)
  {
    AppendFate(s.log.fate, h, Stale, Copied);
    AppendFate(s.log.fate, h, Stale, Skipped);
    AppendFate(s.log.fate, h, Stale, Stale);
  }

  // Taking the next frame when the last one is out completely.
  lemma WireTake(l: Log, h: seq<Entry>, k: nat)
    requires WireClean(l, h) && k < |h| && Within(l.taken, k)
    requires l.taken != [] ==> |l.wire| == |Front(l, h)| + |Last(l, h)|
    ensures var m := l.(taken := l.taken + [k]);
            WireClean(m, h) && Front(m, h) == l.wire && Last(m, h) == h[k].bytes
  {
    var m := l.(taken := l.taken + [k]);
    assert m.taken[..|m.taken| - 1] == l.taken;
    if l.taken != [] {
      var n := |l.taken| - 1;
      assert FramesAt(h, l.taken) == FramesAt(h, l.taken[..n]) + [Last(l, h)];
      assert FramesAt(h, l.taken)[..n] == FramesAt(h, l.taken[..n]);
    }
    assert Front(m, h) == l.wire;
  }

  lemma LoadOk(s: Sender, h: seq<Entry>, now: nat)
    requires SenderOk(s, h, true) && s.cursorSeq < |h| && !HasPending(s)
    ensures SenderOk(Load(s, h, now), h, true)
  {
    hide FateBytes, FateCount, Flatten, CumBytes, Front, Last;
    AppendFate(s.log.fate, h, Copied, Copied);
    AppendFate(s.log.fate, h, Copied, Skipped);
    AppendFate(s.log.fate, h, Copied, Stale);
    WireTake(s.log, h, s.cursorSeq);
    WireIgnoresFate(s.log.(taken := s.log.taken + [s.cursorSeq]), h, s.log.fate + [Copied]);
  }

  lemma WireIgnoresFate(l: Log, h: seq<Entry>, fate: seq<Fate>)
    requires WireClean(l, h)
    ensures var m := l.(fate := fate);
            WireClean(m, h) && (l.taken != [] ==> Front(m, h) == Front(l, h) && Last(m, h) == Last(l, h))
  {
  }

  lemma {:induction false} TakeEligibleOk(s: Sender, h: seq<Entry>, now: nat, stale: nat)
    requires SenderOk(s, h, true) && !HasPending(s)
    ensures SenderOk(TakeEligible(s, h, now, stale).0, h, true)
    decreases |h| - s.cursorSeq
  {
    if s.cursorSeq < |h| {
      if TooOld(h, s.cursorSeq, now, stale) {
        DropStaleOk(s, h);
        TakeEligibleOk(DropStale(s, h), h, now, stale);
      } else {
        LoadOk(s, h, now);
      }
    }
  }

  lemma CopyNextOk(s: Sender, h: seq<Entry>, now: nat, stale: nat)
    requires SenderOk(s, h, true) && !HasPending(s)
    ensures SenderOk(CopyNext(s, h, now, stale).0, h, true)
  {
    if s.cursorSeq < OldestSeq(|h|) {
      SkipToOk(s, h, OldestSeq(|h|), true);
    }
    TakeEligibleOk(JumpToOldest(s, h), h, now, stale);
  }

  // Sending the next n bytes of the last frame taken.
  lemma WireSend(l: Log, h: seq<Entry>, off: nat, n: nat)
    requires WireClean(l, h) && l.taken != []
    requires off == |l.wire| - |Front(l, h)| && off + n <= |Last(l, h)|
    ensures var m := l.(wire := l.wire + Last(l, h)[off..off + n]);
            WireClean(m, h) && Front(m, h) == Front(l, h) && Last(m, h) == Last(l, h)
            && |m.wire| == |l.wire| + n
  {
    hide Flatten, FramesAt;
    var front, last := Front(l, h), Last(l, h);
    assert front + last[..off] + last[off..off + n] == front + last[..off + n];
  }

  // From s to t: every frame older than `stale` was dropped, and the first one that is not was
  // copied; if nothing was copied the sender has caught up.
  predicate Decided(s: Sender, h: seq<Entry>, now: nat, stale: nat, t: Sender, copied: bool)
  {
    var end := if copied then t.cursorSeq - 1 else t.cursorSeq;
    && s.cursorSeq <= end <= |h|
    && t.log.fate == s.log.fate + Repeat(Stale, end - s.cursorSeq) + (if copied then [Copied] else [])
    && (forall i :: s.cursorSeq <= i < end ==> TooOld(h, i, now, stale))
    && (copied ==> end < |h| && !TooOld(h, end, now, stale) && t.current == h[end].bytes && t.currentOff == 0)
    && (!copied ==> end == |h|)
  }

  // Sixteen more frames were pushed behind frame `i`.
  predicate Overwritten(h: seq<Entry>, i: nat) { i + 16 < |h| }

  // What one critical section decides: first the frames that were overwritten are skipped, and
  // only those.
  lemma CopyNextDecides(s: Sender, h: seq<Entry>, now: nat, stale: nat)
    requires CursorOk(s, h)
    ensures var (t, copied) := CopyNext(s, h, now, stale);
            var j := JumpToOldest(s, h);
            && j.cursorSeq == (if s.cursorSeq < OldestSeq(|h|) then OldestSeq(|h|) else s.cursorSeq)
            && (forall i: nat :: s.cursorSeq <= i < |h| ==> (Overwritten(h, i) <==> i < j.cursorSeq))
            && j.log.fate == s.log.fate + Repeat(Skipped, j.cursorSeq - s.cursorSeq)
            && Decided(j, h, now, stale, t, copied)
  {
    hide CumBytes;
    assert s.log.fate + Repeat(Skipped, 0) == s.log.fate;
    TakeEligibleDecides(JumpToOldest(s, h), h, now, stale);
  }

  lemma {:induction false} TakeEligibleDecides(s: Sender, h: seq<Entry>, now: nat, stale: nat)
    requires CursorOk(s, h)
    ensures Decided(s, h, now, stale, TakeEligible(s, h, now, stale).0, TakeEligible(s, h, now, stale).1)
    decreases |h| - s.cursorSeq
  {
    hide CumBytes;
    if s.cursorSeq < |h| && TooOld(h, s.cursorSeq, now, stale) {
      TakeEligibleDecides(DropStale(s, h), h, now, stale);
      var (t, copied) := TakeEligible(s, h, now, stale);
      var end := if copied then t.cursorSeq - 1 else t.cursorSeq;
      assert s.log.fate + [Stale] + Repeat(Stale, end - s.cursorSeq - 1)
          == s.log.fate + Repeat(Stale, end - s.cursorSeq);
    } else {
      assert s.log.fate + Repeat(Stale, 0) == s.log.fate;
    }
  }

  // Clock readings less than the counter's range apart, in either direction.
  predicate ClocksNear(now: nat, received: nat, stale: nat)
  {
    now < received + UINT32 && received + stale < now + UINT32
  }

  // The wrapping age test: a frame is dropped if it is older than the limit, but also if the clock
  // was read before the frame was received.
  lemma TooOldIff(h: seq<Entry>, k: nat, now: nat, stale: nat)
    requires k < |h| && ClocksNear(now, h[k].receivedMs, stale)
    ensures TooOld(h, k, now, stale)
       <==> stale > 0 && (now > h[k].receivedMs + stale || now < h[k].receivedMs)
  {
    var age := now - h[k].receivedMs;
    if age < 0 {
      assert (age + UINT32) % UINT32 == age + UINT32;
      assert age % UINT32 == (age + UINT32) % UINT32;
    }
  }

  // What one critical section gives up as stale was older than the limit, except exactly the frames
  // that were received after the clock was read.
  lemma StaleMeansOldIff(s: Sender, h: seq<Entry>, now: nat, stale: nat, k: nat)
    requires CursorOk(s, h) && |s.log.fate| == s.cursorSeq <= k < |h|
    requires ClocksNear(now, h[k].receivedMs, stale)
    requires var fate := CopyNext(s, h, now, stale).0.log.fate; k < |fate| && fate[k] == Stale
    ensures now > h[k].receivedMs + stale <==> h[k].receivedMs <= now
  {
    hide CumBytes, CopyNext, JumpToOldest, TooOld;
    CopyNextDecides(s, h, now, stale);
    TooOldIff(h, k, now, stale);
  }

  // A send keeps the connection in step; a hard error leaves it closed with its remainder counted.
  lemma SendOnceOk(s: Sender, h: seq<Entry>, o: SendOutcome, now: nat)
    requires SenderOk(s, h, true) && HasPending(s)
    ensures SenderOk(SendOnce(s, o, now).0, h, SendOnce(s, o, now).1 != Return(Error))
  {
    hide FateBytes, FateCount, Flatten, CumBytes, Front, Last, WireClean;
    if o.Accept? && o.room > 0 {
      var n := Min(o.room, |s.current| - s.currentOff);
      AcceptOk(s, h, n);
    } else if !IsWouldBlock(o) {
      AbortOk(s, h, true);
    }
  }

  lemma AcceptOk(s: Sender, h: seq<Entry>, n: nat)
    requires SenderOk(s, h, true) && HasPending(s) && s.currentOff + n <= |s.current|
    ensures var m := s.log.(wire := s.log.wire + s.current[s.currentOff..s.currentOff + n]);
            && WireClean(m, h) && m.taken != []
            && s.current == Last(m, h) && s.currentOff + n == |m.wire| - |Front(m, h)|
  {
    WireSend(s.log, h, s.currentOff, n);
  }

  // ------------------------------------------------- what the peer receives

  // Running the parser over the wire gives back exactly the frames taken (all of them, or all
  // but the one that was cut), nothing is discarded, and the rest is the cut frame so far.
  lemma WireParsesBack(l: Log, h: seq<Entry>)
    requires WireClean(l, h) && AllFrames(h)
    ensures ParsedBack(l, h, Scan(l.wire))
  {
    hide Scan, Flatten, IsFrame;
    if l.taken == [] {
      ScanWait([]);
      EmptyParse(l, h);
    } else {
      var n := |l.taken| - 1;
      var front, last := FramesAt(h, l.taken[..n]), Last(l, h);
      var cut := last[..|l.wire| - |Front(l, h)|];
      if |cut| < |last| {
        CleanStream(front, cut);
      } else {
        assert cut == last;
        WholeWire(front, last, h[l.taken[n]].bytes);
        assert FramesAt(h, l.taken) == front + [last];
      }
    }
  }

  predicate AllFrames(h: seq<Entry>)
  {
    forall i :: 0 <= i < |h| ==> IsFrame(h[i].bytes)
  }

  predicate ParsedBack(l: Log, h: seq<Entry>, o: Outcome)
    requires Within(l.taken, |h|)
  {
    && |o.frames| <= |l.taken| <= |o.frames| + 1
    && o.frames == FramesAt(h, l.taken[..|o.frames|])
    && o.discarded == 0 && o.crcErrors == 0
    && l.wire == Flatten(o.frames) + o.rest
    && (o.rest != [] ==> |o.frames| < |l.taken| && o.rest < h[l.taken[|o.frames|]].bytes)
  }

  lemma EmptyParse(l: Log, h: seq<Entry>)
    requires l.taken == [] && l.wire == []
    ensures ParsedBack(l, h, Outcome([], 0, 0, []))
  {
  }

  lemma WholeWire(front: seq<seq<Byte>>, last: seq<Byte>, f: seq<Byte>)
    requires IsFrame(last) && forall g :: g in front ==> IsFrame(g)
    ensures Flatten(front + [last]) == Flatten(front) + last
    ensures Scan(Flatten(front) + last) == Outcome(front + [last], 0, 0, [])
  {
    assert (front + [last])[..|front|] == front;
    assert Flatten(front) + last == Flatten(front + [last]) + [];
    assert [] == last[..0];
    CleanStream(front + [last], []);
  }

  // -------------------------------------------------------------- one poll

  // What the result of a poll tells the drain loop.
  predicate PollMeans(s: Sender, t: Sender, h: seq<Entry>, result: PollResult, before: PollResult)
  {
    && s.totals.acceptedToLwip <= t.totals.acceptedToLwip
    && s.totals.sentFrames <= t.totals.sentFrames
    && match result
       case Idle => before == Idle && (t == s || (t.cursorSeq == |h| && !HasPending(t)))
                    && t.totals.acceptedToLwip == s.totals.acceptedToLwip
       case Progress => before == Progress || t.totals.acceptedToLwip > s.totals.acceptedToLwip
       case WouldBlock => HasPending(t) && t.totals.eagainCount == s.totals.eagainCount + 1
       case Error => t.current == [] && t.totals.lastSockErrno != EAGAIN
  }

  lemma {:induction false} PollOk(s: Sender, h: seq<Entry>, now: nat, stale: nat,
                                  outcomes: seq<SendOutcome>, before: PollResult)
    requires SenderOk(s, h, true) && (before == Idle || before == Progress)
    ensures var (t, result) := Poll(s, h, now, stale, outcomes, before);
            SenderOk(t, h, result != Error) && PollMeans(s, t, h, result, before)
    decreases |outcomes|
  {
    hide SenderOk, CopyNext, SendOnce;
    if outcomes != [] {
      assert CursorOk(s, h) by { SenderFollows(s, h); }
      var (t, ready) := if HasPending(s) then (s, true) else CopyNext(s, h, now, stale);
      if !HasPending(s) {
        CopyNextOk(s, h, now, stale);
        CopyNextCaughtUp(s, h, now, stale);
      }
      if ready {
        SendOnceOk(t, h, outcomes[0], now);
        SendOnceMeans(t, outcomes[0], now);
        var (u, v) := SendOnce(t, outcomes[0], now);
        if v == Continue {
          PollOk(u, h, now, stale, outcomes[1..], Progress);
        }
      }
    }
  }

  // Taking the next frame sends nothing.
  predicate NothingSent(s: Sender, t: Sender)
  {
    && t.log.wire == s.log.wire
    && t.totals.acceptedToLwip == s.totals.acceptedToLwip
    && t.totals.eagainCount == s.totals.eagainCount
    && t.totals.reconnects == s.totals.reconnects
  }

  lemma {:induction false} TakeSendsNothing(s: Sender, h: seq<Entry>, now: nat, stale: nat)
    requires CursorOk(s, h)
    ensures NothingSent(s, TakeEligible(s, h, now, stale).0)
    decreases |h| - s.cursorSeq
  {
    hide CumBytes, AllPushable;
    if s.cursorSeq < |h| && TooOld(h, s.cursorSeq, now, stale) {
      TakeSendsNothing(DropStale(s, h), h, now, stale);
    }
  }

  lemma CopySendsNothing(s: Sender, h: seq<Entry>, now: nat, stale: nat)
    requires CursorOk(s, h)
    ensures NothingSent(s, CopyNext(s, h, now, stale).0)
  {
    hide CumBytes, AllPushable, TakeEligible, CursorOk;
    TakeSendsNothing(JumpToOldest(s, h), h, now, stale);
  }

  lemma {:induction false} ProgressStays(s: Sender, h: seq<Entry>, now: nat, stale: nat, outcomes: seq<SendOutcome>)
    requires CursorOk(s, h)
    ensures Poll(s, h, now, stale, outcomes, Progress).1 != Idle
    decreases |outcomes|
  {
    hide CopyNext, SendOnce, CumBytes, AllPushable;
    if outcomes != [] {
      var (t, ready) := if HasPending(s) then (s, true) else CopyNext(s, h, now, stale);
      if ready {
        SendKeepsCursor(t, outcomes[0], now);
        var (u, v) := SendOnce(t, outcomes[0], now);
        if v.Continue? {
          ProgressStays(u, h, now, stale, outcomes[1..]);
        }
      }
    }
  }

  lemma SendKeepsCursor(s: Sender, o: SendOutcome, now: nat)
    requires HasPending(s)
    ensures var (t, v) := SendOnce(s, o, now);
            t.cursorSeq == s.cursorSeq && t.cumThrough == s.cumThrough && v != Return(Idle)
  {
  }

  // A poll that may send reports idle only when everything in the ring has been dealt with.
  lemma IdleIsCaughtUp(s: Sender, h: seq<Entry>, now: nat, stale: nat, outcomes: seq<SendOutcome>)
    requires CursorOk(s, h) && outcomes != []
    ensures var (t, result) := Poll(s, h, now, stale, outcomes, Idle);
            result == Idle ==> t.cursorSeq == |h| && !HasPending(t)
  {
    hide CopyNext, SendOnce, CumBytes, AllPushable;
    var (t, ready) := if HasPending(s) then (s, true) else CopyNext(s, h, now, stale);
    if !HasPending(s) {
      CopyNextCaughtUp(s, h, now, stale);
    }
    if ready {
      SendKeepsCursor(t, outcomes[0], now);
      var (u, v) := SendOnce(t, outcomes[0], now);
      if v.Continue? {
        ProgressStays(u, h, now, stale, outcomes[1..]);
      }
    }
  }

  lemma SenderFollows(s: Sender, h: seq<Entry>)
    requires SenderOk(s, h, true)
    ensures CursorOk(s, h) && (!HasPending(s) ==> s.current == [])
  {
  }

  lemma CopyNextCaughtUp(s: Sender, h: seq<Entry>, now: nat, stale: nat)
    requires CursorOk(s, h) && !HasPending(s)
    ensures var (t, copied) := CopyNext(s, h, now, stale);
            && t.totals.acceptedToLwip == s.totals.acceptedToLwip
            && t.totals.sentFrames == s.totals.sentFrames
            && t.totals.eagainCount == s.totals.eagainCount
            && (!copied ==> t.cursorSeq == |h| && !HasPending(t))
  {
    hide CumBytes;
    TakeEligibleCaughtUp(JumpToOldest(s, h), h, now, stale);
  }

  lemma {:induction false} TakeEligibleCaughtUp(s: Sender, h: seq<Entry>, now: nat, stale: nat)
    requires CursorOk(s, h) && !HasPending(s)
    ensures var (t, copied) := TakeEligible(s, h, now, stale);
            && t.totals.acceptedToLwip == s.totals.acceptedToLwip
            && t.totals.sentFrames == s.totals.sentFrames
            && t.totals.eagainCount == s.totals.eagainCount
            && (!copied ==> t.cursorSeq == |h| && !HasPending(t))
    decreases |h| - s.cursorSeq
  {
    hide CumBytes;
    if s.cursorSeq < |h| && TooOld(h, s.cursorSeq, now, stale) {
      TakeEligibleCaughtUp(DropStale(s, h), h, now, stale);
    }
  }

  lemma SendOnceMeans(s: Sender, o: SendOutcome, now: nat)
    requires HasPending(s)
    ensures var (t, v) := SendOnce(s, o, now);
            && t.totals.sentFrames >= s.totals.sentFrames
            && (v == Continue ==> t.totals.acceptedToLwip > s.totals.acceptedToLwip
                                  && t.totals.eagainCount == s.totals.eagainCount)
            && (v != Continue ==> t.totals.acceptedToLwip == s.totals.acceptedToLwip)
            && (v == Return(WouldBlock) ==> HasPending(t) && t.totals.eagainCount == s.totals.eagainCount + 1)
            && (v == Return(Error) ==> t.current == [] && t.totals.lastSockErrno != EAGAIN)
            && (v.Return? ==> v.result == WouldBlock || v.result == Error)
  {
  }

  // The age limit of a partially sent frame runs from its receipt, however its bytes trickle out.
  lemma DeadlineIsFrameAge(s: Sender, h: seq<Entry>, now: nat, deadline: nat)
    requires SenderOk(s, h, true)
    ensures FrameOverdue(s, now, deadline) <==>
            HasPending(s) && Elapsed(now, h[s.log.taken[|s.log.taken| - 1]].receivedMs) > deadline
  {
  }

  // ------------------------------------------------------- what a poll counts

  function One(b: bool): nat { if b then 1 else 0 }

  // Between two states of a sender on one connection: every frame it had or took was sent whole, is
  // still pending, or was given up; refusals and the last error are on record.
  predicate Counted(s: Sender, t: Sender, failed: bool, refused: bool)
  {
    && s.log.taken <= t.log.taken
    && t.totals.sentFrames + One(HasPending(t) || failed)
         == s.totals.sentFrames + |t.log.taken| - |s.log.taken| + One(HasPending(s))
    && t.totals.eagainCount == s.totals.eagainCount + One(refused)
    && (!failed ==> t.totals.lastSockErrno == s.totals.lastSockErrno)
  }

  lemma {:induction false} TakeCounts(s: Sender, h: seq<Entry>, now: nat, stale: nat)
    requires CursorOk(s, h) && !HasPending(s)
    ensures var (t, copied) := TakeEligible(s, h, now, stale); Counted(s, t, false, false)
    decreases |h| - s.cursorSeq
  {
    hide CumBytes, AllPushable;
    if s.cursorSeq < |h| {
      if TooOld(h, s.cursorSeq, now, stale) {
        TakeCounts(DropStale(s, h), h, now, stale);
      } else {
        assert PushableLen(|h[s.cursorSeq].bytes|) by { CursorFits(s, h, s.cursorSeq); }
      }
    }
  }

  lemma CursorFits(s: Sender, h: seq<Entry>, k: nat)
    requires CursorOk(s, h) && k < |h|
    ensures PushableLen(|h[k].bytes|)
  {
  }

  // The greatest age on record grows exactly to the age of the frame taken, if that is greater.
  lemma {:induction false} TakeAges(s: Sender, h: seq<Entry>, now: nat, stale: nat)
    requires CursorOk(s, h)
    ensures var (t, copied) := TakeEligible(s, h, now, stale);
            var age := Elapsed(now, t.currentReceivedMs);
            t.totals.maxQueueAgeMs
              == if copied && age > s.totals.maxQueueAgeMs then age else s.totals.maxQueueAgeMs
    decreases |h| - s.cursorSeq
  {
    hide CumBytes, AllPushable;
    if s.cursorSeq < |h| && TooOld(h, s.cursorSeq, now, stale) {
      TakeAges(DropStale(s, h), h, now, stale);
    }
  }

  // What the error on record is.
  function ErrnoOf(o: SendOutcome): int { if o.Refuse? then o.errno else ECONNRESET }

  lemma SendCounts(s: Sender, o: SendOutcome, now: nat)
    requires HasPending(s)
    ensures var (t, v) := SendOnce(s, o, now);
            && Counted(s, t, v == Return(Error), v == Return(WouldBlock)) && t.log.taken == s.log.taken
            && (v == Return(Error) ==> t.totals.lastSockErrno == ErrnoOf(o))
            && v in {Continue, Return(Error), Return(WouldBlock)}
  {
  }

  lemma {:induction false} PollCounts(s: Sender, h: seq<Entry>, now: nat, stale: nat,
                                      outcomes: seq<SendOutcome>, before: PollResult)
    requires CursorOk(s, h) && (before == Idle || before == Progress)
    ensures var (t, result) := Poll(s, h, now, stale, outcomes, before);
            && Counted(s, t, result == Error, result == WouldBlock)
            && (result == Error ==> exists k :: 0 <= k < |outcomes| && t.totals.lastSockErrno == ErrnoOf(outcomes[k]))
    decreases |outcomes|
  {
    hide CumBytes, AllPushable, TakeEligible, SendOnce, ErrnoOf;
    if outcomes != [] {
      var (t, ready) := if HasPending(s) then (s, true) else CopyNext(s, h, now, stale);
      if !HasPending(s) {
        TakeCounts(JumpToOldest(s, h), h, now, stale);
      }
      assert Counted(s, t, false, false);
      if ready {
        SendCounts(t, outcomes[0], now);
        SendKeepsCursor(t, outcomes[0], now);
        var (u, v) := SendOnce(t, outcomes[0], now);
        if v.Continue? {
          PollCounts(u, h, now, stale, outcomes[1..], Progress);
          var (x, result) := Poll(u, h, now, stale, outcomes[1..], Progress);
          if result == Error {
            var k :| 0 <= k < |outcomes[1..]| && x.totals.lastSockErrno == ErrnoOf(outcomes[1..][k]);
            assert outcomes[k + 1] == outcomes[1..][k];
          }
        } else if v == Return(Error) {
          assert u.totals.lastSockErrno == ErrnoOf(outcomes[0]);
        }
      }
    }
  }

  // ------------------------------------------------------- the progress clock

  // Bytes were accepted, or another frame was taken.
  predicate Moved(s: Sender, t: Sender)
  {
    |t.log.wire| > |s.log.wire| || |t.log.taken| > |s.log.taken|
  }

  // Bytes and frames are only added, and the progress clock stands where the last were.
  predicate ClockFollows(s: Sender, t: Sender, now: nat)
  {
    && s.log.wire <= t.log.wire && s.log.taken <= t.log.taken
    && t.lastProgressMs == if Moved(s, t) then now else s.lastProgressMs
  }

  lemma {:induction false} TakeMovesClock(s: Sender, h: seq<Entry>, now: nat, stale: nat)
    requires CursorOk(s, h)
    ensures var (t, copied) := TakeEligible(s, h, now, stale);
            ClockFollows(s, t, now) && t.log.wire == s.log.wire && (copied <==> Moved(s, t))
    decreases |h| - s.cursorSeq
  {
    hide CumBytes, AllPushable;
    if s.cursorSeq < |h| && TooOld(h, s.cursorSeq, now, stale) {
      TakeMovesClock(DropStale(s, h), h, now, stale);
    }
  }

  lemma SendMovesClock(s: Sender, o: SendOutcome, now: nat)
    requires HasPending(s)
    ensures var (t, v) := SendOnce(s, o, now);
            ClockFollows(s, t, now) && (v == Continue <==> Moved(s, t)) && t.log.taken == s.log.taken
  {
  }

  // Whatever a poll does: every byte accepted and every frame taken restarts the progress clock, and
  // nothing else does, so neither idle time in front of a frame nor a refusal counts wrongly.
  lemma {:induction false} PollMovesClock(s: Sender, h: seq<Entry>, now: nat, stale: nat,
                                          outcomes: seq<SendOutcome>, before: PollResult)
    requires CursorOk(s, h)
    ensures ClockFollows(s, Poll(s, h, now, stale, outcomes, before).0, now)
    decreases |outcomes|
  {
    hide CumBytes, AllPushable, TakeEligible, SendOnce;
    if outcomes != [] {
      var (t, ready) := if HasPending(s) then (s, true) else CopyNext(s, h, now, stale);
      if !HasPending(s) {
        TakeMovesClock(JumpToOldest(s, h), h, now, stale);
      }
      assert ClockFollows(s, t, now);
      if ready {
        SendMovesClock(t, outcomes[0], now);
        SendKeepsCursor(t, outcomes[0], now);
        var (u, v) := SendOnce(t, outcomes[0], now);
        if v.Continue? {
          PollMovesClock(u, h, now, stale, outcomes[1..], Progress);
        }
      }
    }
  }

  // What a stall is, in true times: behind a poll that moved anything, the pending frame has waited
  // longer than the timeout since that poll; behind one that moved nothing, since whatever time the
  // clock stood at before.
  lemma StalledIff(s: Sender, h: seq<Entry>, now: nat, stale: nat, outcomes: seq<SendOutcome>, before: PollResult,
                   later: nat, timeout: nat)
    requires CursorOk(s, h)
    ensures var t := Poll(s, h, now, stale, outcomes, before).0;
            var since := if Moved(s, t) then now else s.lastProgressMs;
            since <= later < since + UINT32 ==>
              (Stalled(t, later, timeout) <==> HasPending(t) && later - since > timeout)
  {
    hide Poll;
    PollMovesClock(s, h, now, stale, outcomes, before);
  }

  // Loading a frame restarts the progress clock: after any idle time, the first refusal is not
  // yet a stall.
  lemma NoFalseStall(s: Sender, h: seq<Entry>, now: nat, stale: nat, later: nat, timeout: nat)
    requires CursorOk(s, h) && CopyNext(s, h, now, stale).1
    ensures Stalled(CopyNext(s, h, now, stale).0, later, timeout) <==> Elapsed(later, now) > timeout
  {
    LoadedNow(JumpToOldest(s, h), h, now, stale);
  }

  lemma {:induction false} LoadedNow(s: Sender, h: seq<Entry>, now: nat, stale: nat)
    requires CursorOk(s, h) && TakeEligible(s, h, now, stale).1
    ensures TakeEligible(s, h, now, stale).0.lastProgressMs == now
    decreases |h| - s.cursorSeq
  {
    if TooOld(h, s.cursorSeq, now, stale) {
      LoadedNow(DropStale(s, h), h, now, stale);
    }
  }
}
