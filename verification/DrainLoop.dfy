// The life of one caster connection in its task: a sender reset at the handshake, polled at every
// wake-up while the UART task keeps pushing frames, and closed for one of five reasons.
module DrainLoop {
  import opened Words
  import opened RtcmScan
  import opened FrameRing
  import opened NtripTx
  import opened TxAccounting
  import opened Wakeups
  import TxSender

  lemma PossibleFits(w: Wakeup)
    requires Possible(w)
    ensures Fits(w)
  {
    hide AllFrames, AllPushable;
    forall i | 0 <= i < |w.spins| ensures AllPushable(w.spins[i].arrived) {
      ArrivedPushable(w.spins[i].arrived);
    }
  }

  predicate Possible(w: Wakeup)
  {
    && |w.spins| == DRAIN_MAX_SPINS
    && forall i :: 0 <= i < |w.spins| ==>
         |w.spins[i].outcomes| == MAX_SENDS_PER_POLL && AllFrames(w.spins[i].arrived)
  }

  // ---------------------------------------------------- the sender over polls

  // What a sender keeps over everything but a reset: the difference of its lifetime counter and
  // the bytes of this connection, and the number of connections.
  predicate SameConnection(s: Sender, t: Sender)
  {
    && s.log.wire <= t.log.wire
    && t.totals.acceptedToLwip - |t.log.wire| == s.totals.acceptedToLwip - |s.log.wire|
    && t.totals.reconnects == s.totals.reconnects
  }

  lemma SendSame(s: Sender, o: SendOutcome, now: nat)
    requires HasPending(s)
    ensures SameConnection(s, SendOnce(s, o, now).0)
    ensures SendOnce(s, o, now).0.cursorSeq == s.cursorSeq && SendOnce(s, o, now).0.cumThrough == s.cumThrough
  {
  }

  lemma {:induction false} PollSame(s: Sender, h: seq<Entry>, now: nat, stale: nat,
                                    outcomes: seq<SendOutcome>, before: PollResult)
    requires CursorOk(s, h)
    ensures SameConnection(s, Poll(s, h, now, stale, outcomes, before).0)
    decreases |outcomes|
  {
    hide CumBytes, AllPushable, CopyNext, SendOnce;
    if outcomes != [] {
      var (t, ready) := if HasPending(s) then (s, true) else CopyNext(s, h, now, stale);
      CopySendsNothing(s, h, now, stale);
      if ready {
        SendSame(t, outcomes[0], now);
        var (u, v) := SendOnce(t, outcomes[0], now);
        if v.Continue? {
          PollSame(u, h, now, stale, outcomes[1..], Progress);
        }
      }
    }
  }

  // ------------------------------------------------------------- the task

  ghost predicate Serving(tx: TxSender.Tx, ring: Ring, open: bool)
    reads tx, tx.current, ring, ring.slot
  {
    tx.Follows(ring) && SenderOk(tx.Model(), ring.history, open) && AllFrames(ring.history)
  }

  // The UART task pushes; the sender is not touched.
  method Arrive(tx: TxSender.Tx, ring: Ring, arrived: seq<Entry>)
    requires Serving(tx, ring, true) && AllFrames(arrived)
    modifies ring, ring.slot
    ensures Serving(tx, ring, true) && ring.history == Pushed(old(ring.history), arrived)
    ensures tx.Model() == old(tx.Model())
  {
    hide SenderOk, CursorOk, AllPushable, Agrees, IsFrame;
    var i := 0;
    ghost var s := tx.Model();
    assert arrived[..0] == [];
    while i < |arrived|
      invariant 0 <= i <= |arrived| && Serving(tx, ring, true) && tx.Model() == s
      invariant ring.history == Pushed(old(ring.history), arrived[..i])
    {
      assert arrived[..i + 1][..i] == arrived[..i];
      if ring.nextSeq + 1 < UINT32 {
        ArrivedFits(s, ring.history, arrived[i]);
        assert IsFrame(arrived[i].bytes);
        ring.Push(arrived[i].bytes, arrived[i].receivedMs);
      }
      i := i + 1;
    }
    assert arrived[..i] == arrived;
  }

  lemma ArrivedFits(s: Sender, h: seq<Entry>, e: Entry)
    requires CursorOk(s, h) && SenderOk(s, h, true) && AllFrames(h) && IsFrame(e.bytes)
    ensures PushableLen(|e.bytes|) && Entry(e.bytes, e.receivedMs) == e
    ensures CursorOk(s, h + [e]) && SenderOk(s, h + [e], true) && AllFrames(h + [e])
  {
    hide CumBytes, SenderOk, IsFrame;
    FrameFits(e.bytes);
    PushOk(s, h, e, true);
    assert (h + [e])[..s.cursorSeq] == h[..s.cursorSeq];
  }

  lemma ArrivedPushable(es: seq<Entry>)
    requires AllFrames(es)
    ensures AllPushable(es)
  {
    forall j | 0 <= j < |es| ensures PushableLen(|es[j].bytes|) {
      FrameFits(es[j].bytes);
    }
  }

  lemma FrameFits(f: seq<Byte>)
    requires IsFrame(f)
    ensures PushableLen(|f|)
  {
  }

  // What one poll left behind, read from its result: the ring is empty, the socket pushed back,
  // or bytes were accepted and there may be more to do.
  predicate PollLeft(s: Sender, t: Sender, h: seq<Entry>, pr: PollResult)
  {
    match pr
    case Idle => t.cursorSeq == |h| && !HasPending(t)
    case WouldBlock => HasPending(t) && t.totals.eagainCount > s.totals.eagainCount
    case Progress => |t.log.wire| > |s.log.wire|
    case Error => t.current == [] && t.totals.lastSockErrno != EAGAIN
  }

  // What a wake-up's polls left behind: as before, and progress at the end only if every poll up to
  // the spin cap had bytes accepted.
  predicate DrainLeft(s: Sender, t: Sender, h: seq<Entry>, pr: PollResult)
  {
    PollLeft(s, t, h, pr) && (pr == Progress ==> |t.log.wire| >= |s.log.wire| + DRAIN_MAX_SPINS)
  }

  // Poll until the ring is empty, the socket pushes back, or the spin cap is reached. Reports
  // whether bytes were accepted.
  method DrainOnce(tx: TxSender.Tx, ring: Ring, w: Wakeup) returns (pr: PollResult, moved: bool)
    requires Serving(tx, ring, true) && Possible(w)
    modifies tx, tx.current, ring, ring.slot
    ensures Serving(tx, ring, pr != Error) && Fits(w)
    ensures (tx.Model(), ring.history, pr) == DrainFrom(old(tx.Model()), old(ring.history), w, 0)
    ensures SameConnection(old(tx.Model()), tx.Model())
    ensures DrainLeft(old(tx.Model()), tx.Model(), ring.history, pr)
    ensures moved <==> |tx.Model().log.wire| > |old(tx.Model()).log.wire|
  {
    hide SenderOk, AllFrames, Poll, CursorOk, PollOnce;
    PossibleFits(w);
    var spins := 0;
    moved := false;
    pr := Progress;
    ghost var s := tx.Model();
    while pr == Progress && spins < DRAIN_MAX_SPINS
      invariant 0 <= spins <= DRAIN_MAX_SPINS && Serving(tx, ring, pr != Error)
      invariant DrainFrom(s, old(ring.history), w, 0)
             == if pr == Progress then DrainFrom(tx.Model(), ring.history, w, spins) else (tx.Model(), ring.history, pr)
      invariant SameConnection(s, tx.Model()) && s.totals.eagainCount <= tx.totals.eagainCount
      invariant spins > 0 && pr != Progress ==> PollLeft(s, tx.Model(), ring.history, pr)
      invariant pr == Progress ==> |tx.Model().log.wire| >= |s.log.wire| + spins
      invariant moved <==> |tx.Model().log.wire| > |s.log.wire|
      invariant spins == 0 ==> pr == Progress
      decreases DRAIN_MAX_SPINS - spins
    {
      var p := w.spins[spins];
      var progressed;
      pr, progressed := OnePoll(tx, ring, p, w.now);
      moved := moved || progressed;
      spins := spins + 1;
    }
  }

  method OnePoll(tx: TxSender.Tx, ring: Ring, p: Spin, now: nat) returns (pr: PollResult, progressed: bool)
    requires Serving(tx, ring, true) && AllFrames(p.arrived) && |p.outcomes| == MAX_SENDS_PER_POLL
    modifies tx, tx.current, ring, ring.slot
    ensures Serving(tx, ring, pr != Error) && AllPushable(p.arrived)
    ensures (tx.Model(), ring.history, pr) == PollOnce(old(tx.Model()), old(ring.history), p, now)
    ensures SameConnection(old(tx.Model()), tx.Model()) && old(tx.totals.eagainCount) <= tx.totals.eagainCount
    ensures PollLeft(old(tx.Model()), tx.Model(), ring.history, pr)
    ensures progressed <==> |tx.Model().log.wire| > |old(tx.Model()).log.wire|
  {
    hide SenderOk, AllFrames, Poll, CursorOk;
    ArrivedPushable(p.arrived);
    Arrive(tx, ring, p.arrived);
    ghost var s := tx.Model();
    var before := tx.totals.acceptedToLwip;
    PollOk(s, ring.history, now, STALE_DROP_MS, p.outcomes, Idle);
    PollSame(s, ring.history, now, STALE_DROP_MS, p.outcomes, Idle);
    EagainGrows(s, ring.history, now, STALE_DROP_MS, p.outcomes, Idle);
    IdleIsCaughtUp(s, ring.history, now, STALE_DROP_MS, p.outcomes);
    assert p.outcomes[..MAX_SENDS_PER_POLL] == p.outcomes;
    pr := tx.Poll(ring, now, MAX_SENDS_PER_POLL, STALE_DROP_MS, p.outcomes);
    progressed := tx.totals.acceptedToLwip > before;
  }

  lemma {:induction false} EagainGrows(s: Sender, h: seq<Entry>, now: nat, stale: nat,
                                       outcomes: seq<SendOutcome>, before: PollResult)
    requires CursorOk(s, h)
    ensures Poll(s, h, now, stale, outcomes, before).0.totals.eagainCount >= s.totals.eagainCount
    decreases |outcomes|
  {
    hide CumBytes, AllPushable, CopyNext;
    if outcomes != [] {
      var (t, ready) := if HasPending(s) then (s, true) else CopyNext(s, h, now, stale);
      CopySendsNothing(s, h, now, stale);
      if ready {
        SendKeepsCursor(t, outcomes[0], now);
        var (u, v) := SendOnce(t, outcomes[0], now);
        if v.Continue? {
          EagainGrows(u, h, now, stale, outcomes[1..], Progress);
        }
      }
    }
  }

  // The wake-up's clock is read once. A frame that arrives in front of a later poll was received
  // after it, and the poll gives it up as stale, new as it is: nothing is sent.
  lemma LateArrivalIsDropped(s: Sender, h: seq<Entry>, e: Entry, w: Wakeup, outcomes: seq<SendOutcome>)
    requires CursorOk(s, h) && s.cursorSeq == |h| && !HasPending(s) && |s.log.fate| == s.cursorSeq
    requires PushableLen(|e.bytes|) && outcomes != []
    requires w.now < e.receivedMs && e.receivedMs + STALE_DROP_MS < w.now + UINT32
    ensures CursorOk(s, h + [e])
    ensures var (t, result) := Poll(s, h + [e], w.now, STALE_DROP_MS, outcomes, Idle);
            && result == Idle && t.log.wire == s.log.wire
            && t.log.fate == s.log.fate + [Stale]
  {
    hide CumBytes;
    var g := h + [e];
    assert g[..s.cursorSeq] == h[..s.cursorSeq];
    TooOldIff(g, |h|, w.now, STALE_DROP_MS);
    assert OldestSeq(|g|) <= s.cursorSeq;
    var d := DropStale(s, g);
    assert TakeEligible(d, g, w.now, STALE_DROP_MS) == (d, false);
  }

  method Close(tx: TxSender.Tx)
    requires tx.Valid()
    modifies tx
    ensures tx.Valid() && tx.Model() == CloseConn(old(tx.Model()))
  {
    tx.Abort();
    tx.totals := tx.totals.(reconnects := tx.totals.reconnects + 1);
  }

  // Where a connection starts.
  ghost function Connected(tx: TxSender.Tx, ring: Ring, connectedAt: nat, probedAt: nat): (st: Stand)
    requires tx.Follows(ring)
    reads tx, tx.current, ring, ring.slot
    ensures StandOk(st)
  {
    Stand(ResetConn(tx.Model(), ring.history, connectedAt), ring.history, probedAt)
  }

  // Served from the handshake to the close: exactly the wake-ups up to the first reason to give the
  // connection up or the first request to reconnect, and nothing behind them. The bytes the caster
  // accepted are whole frames and one prefix, every byte is accounted for, and the retry backoff was
  // reset exactly if any byte was accepted.
  method Serve(tx: TxSender.Tx, ring: Ring, connectedAt: nat, probedAt: nat, wakeups: seq<Wakeup>)
    returns (exit: Exit, retryReset: bool, served: nat)
    requires Serving(tx, ring, false) && forall i :: 0 <= i < |wakeups| ==> Possible(wakeups[i])
    modifies tx, tx.current, ring, ring.slot
    ensures Serving(tx, ring, false) && AllFit(wakeups)
    ensures ServesTo(old(Connected(tx, ring, connectedAt, probedAt)), wakeups, served, exit)
    ensures var last := Through(old(Connected(tx, ring, connectedAt, probedAt)), wakeups[..served]);
            tx.Model() == CloseConn(last.sender) && ring.history == last.hist
    ensures tx.totals.reconnects == old(tx.totals.reconnects) + 1
    ensures tx.totals.acceptedToLwip == old(tx.totals.acceptedToLwip) + |tx.log.wire|
    ensures retryReset <==> tx.log.wire != []
    ensures exit == SendError ==> tx.totals.lastSockErrno != EAGAIN
    ensures WireClean(tx.log, ring.history) && ParsedBack(tx.log, ring.history, Scan(tx.log.wire))
  {
    hide SenderOk, AllFrames, CursorOk, Scan, WireClean, ParsedBack, Possible, WokenBy, Fits, ServesTo;
    hide Through, SoFar, ExitOf, ResetConn, CloseConn;
    ghost var st := Connected(tx, ring, connectedAt, probedAt);
    AllPossibleFit(wakeups);
    Connect(tx, ring, connectedAt);
    ghost var fresh0 := tx.Model();
    var madeProgress := false;
    var lastProbe := probedAt;
    exit := Asked;
    served := 0;
    NoneServed(st, wakeups);
    while served < |wakeups| && !wakeups[served].reconnectAsked && exit == Asked
      invariant 0 <= served <= |wakeups| && Serving(tx, ring, exit != SendError)
      invariant Stand(tx.Model(), ring.history, lastProbe) == Through(st, wakeups[..served])
      invariant SoFar(st, wakeups, served, exit)
      invariant SameConnection(fresh0, tx.Model())
      invariant madeProgress <==> tx.log.wire != []
      invariant exit == SendError ==> tx.totals.lastSockErrno != EAGAIN
      decreases |wakeups| - served, exit == Asked
    {
      var moved;
      exit, lastProbe, moved := WakeUp(tx, ring, wakeups[served], lastProbe);
      madeProgress := madeProgress || moved;
      OneMoreServed(st, wakeups, served);
      served := served + 1;
    }
    SoFarServes(st, wakeups, served, exit);
    CloseOk(tx.Model(), ring.history, exit != SendError);
    ClosedSame(tx.Model(), ring.history);
    Close(tx);
    SenderWire(tx.Model(), ring.history);
    WireParsesBack(tx.Model().log, ring.history);
    retryReset := madeProgress;
  }

  // The first `n` wake-ups were served, each for want of a reason not to.
  predicate SoFar(st: Stand, ws: seq<Wakeup>, n: nat, exit: Exit)
    requires StandOk(st) && AllFit(ws) && n <= |ws|
  {
    && (forall i :: 0 <= i < n ==> !ws[i].reconnectAsked)
    && (forall i :: 0 <= i < n - 1 ==> ExitOf(st, ws, i) == Asked)
    && exit == if n == 0 then Asked else ExitOf(st, ws, n - 1)
  }

  lemma NoneServed(st: Stand, ws: seq<Wakeup>)
    requires StandOk(st) && AllFit(ws)
    ensures SoFar(st, ws, 0, Asked) && Through(st, ws[..0]) == st
  {
  }

  lemma OneMoreServed(st: Stand, ws: seq<Wakeup>, n: nat)
    requires StandOk(st) && AllFit(ws) && n < |ws| && SoFar(st, ws, n, Asked) && !ws[n].reconnectAsked
    ensures SoFar(st, ws, n + 1, WokenBy(Through(st, ws[..n]), ws[n]).1)
    ensures Through(st, ws[..n + 1]) == WokenBy(Through(st, ws[..n]), ws[n]).0
  {
    hide WokenBy;
    assert ws[..n + 1][..n] == ws[..n];
  }

  lemma SoFarServes(st: Stand, ws: seq<Wakeup>, n: nat, exit: Exit)
    requires StandOk(st) && AllFit(ws) && n <= |ws| && SoFar(st, ws, n, exit)
    requires exit == Asked ==> n == |ws| || ws[n].reconnectAsked
    ensures ServesTo(st, ws, n, exit)
  {
    hide ExitOf;
  }

  lemma AllPossibleFit(ws: seq<Wakeup>)
    requires forall i :: 0 <= i < |ws| ==> Possible(ws[i])
    ensures AllFit(ws)
  {
    hide Possible, Fits;
    forall i | 0 <= i < |ws| ensures Fits(ws[i]) {
      PossibleFits(ws[i]);
    }
  }

  method Connect(tx: TxSender.Tx, ring: Ring, now: nat)
    requires Serving(tx, ring, false)
    modifies tx
    ensures Serving(tx, ring, true) && tx.Model().log.wire == []
    ensures tx.Model() == ResetConn(old(tx.Model()), ring.history, now)
    ensures tx.totals.acceptedToLwip == old(tx.totals.acceptedToLwip)
    ensures tx.totals.reconnects == old(tx.totals.reconnects)
  {
    hide SenderOk, AllFrames, CursorOk;
    ResetOk(tx.Model(), ring.history, now);
    tx.ResetConn(ring, now);
  }

  lemma ClosedSame(s: Sender, h: seq<Entry>)
    requires CursorOk(s, h)
    ensures CursorOk(CloseConn(s), h) && CloseConn(s).log == s.log
    ensures CloseConn(s).totals.acceptedToLwip == s.totals.acceptedToLwip
    ensures CloseConn(s).totals.lastSockErrno == s.totals.lastSockErrno
    ensures CloseConn(s).totals.reconnects == s.totals.reconnects + 1
  {
  }

  lemma SenderWire(s: Sender, h: seq<Entry>)
    requires SenderOk(s, h, false)
    ensures WireClean(s.log, h)
  {
  }

  // One wake-up: drain, then look for reasons to give the connection up.
  method WakeUp(tx: TxSender.Tx, ring: Ring, w: Wakeup, lastProbe: nat)
    returns (exit: Exit, probed: nat, moved: bool)
    requires Serving(tx, ring, true) && Possible(w)
    modifies tx, tx.current, ring, ring.slot
    ensures Serving(tx, ring, exit != SendError) && Fits(w)
    ensures (Stand(tx.Model(), ring.history, probed), exit)
         == WokenBy(Stand(old(tx.Model()), old(ring.history), lastProbe), w)
    ensures SameConnection(old(tx.Model()), tx.Model())
    ensures moved ==> exit != NoProgress
    ensures moved <==> |tx.Model().log.wire| > |old(tx.Model()).log.wire|
    ensures exit == SendError ==> DrainLeft(old(tx.Model()), tx.Model(), ring.history, Error)
    ensures exit != SendError ==> exists pr :: pr != Error && DrainLeft(old(tx.Model()), tx.Model(), ring.history, pr)
    ensures exit == NoProgress ==> Stalled(tx.Model(), w.now, PROGRESS_TIMEOUT_MS)
    ensures exit == Overdue ==> !Stalled(tx.Model(), w.now, PROGRESS_TIMEOUT_MS)
                                && FrameOverdue(tx.Model(), w.now, FRAME_DEADLINE_MS)
    ensures exit == PeerGone ==> !w.peerAlive && Elapsed(w.probeNow, lastProbe) >= PROBE_INTERVAL_MS
    ensures probed == if exit in {Asked, PeerGone} && Elapsed(w.probeNow, lastProbe) >= PROBE_INTERVAL_MS
                      then w.probeNow else lastProbe
    ensures exit == Asked ==> w.peerAlive || Elapsed(w.probeNow, lastProbe) < PROBE_INTERVAL_MS
    ensures exit == Asked ==> !Stalled(tx.Model(), w.now, PROGRESS_TIMEOUT_MS)
                              && !FrameOverdue(tx.Model(), w.now, FRAME_DEADLINE_MS)
  {
    hide SenderOk, AllFrames, CursorOk, Stalled, FrameOverdue, DrainFrom;
    exit, probed := Asked, lastProbe;
    PossibleFits(w);
    MovedIsNoStall(Stand(tx.Model(), ring.history, lastProbe), w);
    var pr;
    pr, moved := DrainOnce(tx, ring, w);
    if pr == Error {
      exit := SendError;
      return;
    }
    var stalled := tx.Stalled(w.now, PROGRESS_TIMEOUT_MS);
    if stalled {
      exit := NoProgress;
      return;
    }
    var overdue := tx.FrameOverdue(w.now, FRAME_DEADLINE_MS);
    if overdue {
      exit := Overdue;
      return;
    }
    if Elapsed(w.probeNow, lastProbe) >= PROBE_INTERVAL_MS {
      probed := w.probeNow;
      if !w.peerAlive {
        exit := PeerGone;
      }
    }
  }
}
