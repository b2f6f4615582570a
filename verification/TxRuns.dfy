// The whole send path as a state machine whose steps are the critical sections of the ring lock
// and the work a task does in between: one UART task that parses and pushes, and any number of
// connections that copy, send, break and reconnect, interleaved in any order.
module TxRuns {
  import opened Words
  import opened RtcmScan
  import opened FrameRing
  import opened NtripTx
  import opened TxAccounting

  // A connection is open from the reset of its sender until it is closed; after a hard error
  // the only thing the drain loop still does with it is close it.
  datatype Phase = Closed | Open | Broken

  datatype Conn = Conn(phase: Phase, sender: Sender)

  // `fed` are the UART bytes since the parser was last (re-)initialised, when `base` frames had
  // been pushed; `outbox` are frames the parser emitted and the same task has still to push.
  datatype World = World(fed: seq<Byte>, base: nat, outbox: seq<Entry>, hist: seq<Entry>, conns: seq<Conn>)

  datatype Action =
    | Ingest(chunk: seq<Byte>, now: nat, reinit: bool)
    | Push
    | Connect(k: nat, now: nat)
    | Copy(k: nat, now: nat, stale: nat)
    | Send(k: nat, outcome: SendOutcome, now: nat)
    | Close(k: nat)

  function Entries(frames: seq<seq<Byte>>, now: nat): (r: seq<Entry>)
    ensures |r| == |frames| && forall i :: 0 <= i < |r| ==> r[i] == Entry(frames[i], now)
  {
    seq(|frames|, i requires 0 <= i < |frames| => Entry(frames[i], now))
  }

  function Bytes(h: seq<Entry>): (r: seq<seq<Byte>>)
    ensures |r| == |h| && forall i :: 0 <= i < |r| ==> r[i] == h[i].bytes
  {
    seq(|h|, i requires 0 <= i < |h| => h[i].bytes)
  }

  predicate Enabled(w: World, a: Action)
  {
    match a
    case Ingest(_, _, _) => w.outbox == []
    case Push => w.outbox != [] && |w.hist| + 1 < UINT32
    case Connect(k, _) => k < |w.conns| && w.conns[k].phase == Closed && CursorOk(w.conns[k].sender, w.hist)
    case Copy(k, _, _) => k < |w.conns| && w.conns[k].phase == Open && !HasPending(w.conns[k].sender)
                          && CursorOk(w.conns[k].sender, w.hist)
    case Send(k, _, _) => k < |w.conns| && w.conns[k].phase == Open && HasPending(w.conns[k].sender)
    case Close(k) => k < |w.conns| && w.conns[k].phase != Closed
  }

  function SetConn(w: World, k: nat, c: Conn): World
    requires k < |w.conns|
  {
    w.(conns := w.conns[k := c])
  }

  function Do(w: World, a: Action): World
    requires Enabled(w, a)
  {
    match a
    case Ingest(chunk, now, reinit) =>
      var start := if reinit then [] else w.fed;
      var before := |Scan(start).frames|;
      var frames := Scan(start + chunk).frames;
      w.(fed := start + chunk,
         base := if reinit then |w.hist| else w.base,
         outbox := if before <= |frames| then Entries(frames[before..], now) else [])
    case Push => w.(outbox := w.outbox[1..], hist := w.hist + [w.outbox[0]])
    case Connect(k, now) => SetConn(w, k, Conn(Open, ResetConn(w.conns[k].sender, w.hist, now)))
    case Copy(k, now, stale) => SetConn(w, k, Conn(Open, CopyNext(w.conns[k].sender, w.hist, now, stale).0))
    case Send(k, o, now) =>
      var (t, v) := SendOnce(w.conns[k].sender, o, now);
      SetConn(w, k, Conn(if v == Return(Error) then Broken else Open, t))
    case Close(k) => SetConn(w, k, Conn(Closed, CloseConn(w.conns[k].sender)))
  }

  // A step that is not enabled does not happen.
  function Step(w: World, a: Action): World { if Enabled(w, a) then Do(w, a) else w }

  function Run(w: World, acts: seq<Action>): World
    decreases |acts|
  {
    if acts == [] then w else Run(Step(w, acts[0]), acts[1..])
  }

  function Start(n: nat): World
  {
    World([], 0, [], [], seq(n, i => Conn(Closed, INIT_SENDER)))
  }

  // ------------------------------------------------------------ invariants

  // Between re-initialisations the ring holds exactly the frames of the bytes fed, in order.
  predicate IngestOk(w: World)
  {
    && AllFrames(w.hist) && AllFrames(w.outbox)
    && w.base <= |w.hist|
    && Bytes(w.hist[w.base..] + w.outbox) == Scan(w.fed).frames
  }

  predicate ConnOk(c: Conn, h: seq<Entry>)
  {
    SenderOk(c.sender, h, c.phase == Open)
  }

  predicate Invariant(w: World)
  {
    IngestOk(w) && forall k :: 0 <= k < |w.conns| ==> ConnOk(w.conns[k], w.hist)
  }

  lemma IngestStep(w: World, chunk: seq<Byte>, now: nat, reinit: bool)
    requires IngestOk(w) && w.outbox == []
    ensures IngestOk(Do(w, Ingest(chunk, now, reinit)))
  {
    hide Scan, IsFrame;
    var start := if reinit then [] else w.fed;
    var base := if reinit then |w.hist| else w.base;
    var before, more := Scan(start).frames, Scan(Scan(start).rest + chunk).frames;
    ScanAppend(start, chunk);
    ScanConserves(start + chunk);
    ScanWait([]);
    assert (before + more)[|before|..] == more;
    assert w.hist[w.base..] + [] == w.hist[w.base..];
    assert Bytes(w.hist[base..]) == before;
    Emitted(w.hist[base..], before, more, now);
  }

  lemma Emitted(h: seq<Entry>, before: seq<seq<Byte>>, more: seq<seq<Byte>>, now: nat)
    requires Bytes(h) == before && forall f :: f in before + more ==> IsFrame(f)
    ensures Bytes(h + Entries(more, now)) == before + more && AllFrames(Entries(more, now))
  {
    hide IsFrame;
    forall i | 0 <= i < |more| ensures IsFrame(more[i]) {
      assert (before + more)[|before| + i] == more[i];
    }
  }

  lemma PushStep(w: World)
    requires Invariant(w) && Enabled(w, Push)
    ensures Invariant(Do(w, Push))
  {
    var v := Do(w, Push);
    assert v.hist[v.base..] + v.outbox == w.hist[w.base..] + w.outbox;
    forall k | 0 <= k < |v.conns| ensures ConnOk(v.conns[k], v.hist) {
      assert ConnOk(w.conns[k], w.hist);
      PushOk(w.conns[k].sender, w.hist, w.outbox[0], w.conns[k].phase == Open);
    }
  }

  lemma ConnStep(w: World, a: Action, k: nat)
    requires Invariant(w) && Enabled(w, a) && k < |w.conns|
    requires a.Connect? || a.Copy? || a.Send? || a.Close?
    requires a.k == k
    ensures ConnOk(Do(w, a).conns[k], w.hist)
  {
    hide SenderOk, CopyNext, SendOnce, CumBytes;
    var s := w.conns[k].sender;
    assert ConnOk(w.conns[k], w.hist);
    match a
    case Connect(_, now) => ResetOk(s, w.hist, now);
    case Copy(_, now, stale) => CopyNextOk(s, w.hist, now, stale);
    case Send(_, o, now) => SendOnceOk(s, w.hist, o, now);
    case Close(_) => CloseOk(s, w.hist, w.conns[k].phase == Open);
    case _ =>
  }

  lemma StepKeepsInvariant(w: World, a: Action)
    requires Invariant(w)
    ensures Invariant(Step(w, a)) && |Step(w, a).conns| == |w.conns|
  {
    hide SenderOk, Scan;
    if Enabled(w, a) {
      match a
      case Ingest(chunk, now, reinit) => IngestStep(w, chunk, now, reinit);
      case Push => PushStep(w);
      case Connect(k, _) => ConnStep(w, a, k);
      case Copy(k, _, _) => ConnStep(w, a, k);
      case Send(k, _, _) => ConnStep(w, a, k);
      case Close(k) => ConnStep(w, a, k);
    }
  }

  lemma {:induction false} RunKeepsInvariant(w: World, acts: seq<Action>)
    requires Invariant(w)
    ensures Invariant(Run(w, acts)) && |Run(w, acts).conns| == |w.conns|
    decreases |acts|
  {
    if acts != [] {
      StepKeepsInvariant(w, acts[0]);
      RunKeepsInvariant(Step(w, acts[0]), acts[1..]);
    }
  }

  lemma StartOk(n: nat)
    ensures Invariant(Start(n))
  {
    hide SenderOk, Scan;
    InitOk();
    ScanWait([]);
    assert Bytes([]) == [];
  }

  // ------------------------------------------------------------- theorems

  // End to end. In every reachable state, for every connection: what its socket accepted since
  // the connection was made is whole checked frames in strictly increasing order followed by the
  // beginning of a later one, and a parser at the other end recovers exactly those frames.
  lemma EndToEnd(n: nat, acts: seq<Action>, k: nat)
    requires k < n
    ensures var w := Run(Start(n), acts);
            && |w.conns| == n
            && AllFrames(w.hist)
            && var l := w.conns[k].sender.log;
               && Increasing(l.taken) && Within(l.taken, |w.hist|)
               && (forall i :: 0 <= i < |l.taken| ==> l.since <= l.taken[i])
               && ParsedBack(l, w.hist, Scan(l.wire))
  {
    StartOk(n);
    RunKeepsInvariant(Start(n), acts);
    var w := Run(Start(n), acts);
    assert ConnOk(w.conns[k], w.hist);
    WireParsesBack(w.conns[k].sender.log, w.hist);
  }

  // ------------------------------------------------- what a connection sends

  lemma {:induction false} SinceStays(w: World, acts: seq<Action>, k: nat)
    requires Invariant(w) && k < |w.conns|
    requires forall i :: 0 <= i < |acts| ==> !(acts[i].Connect? && acts[i].k == k)
    ensures |Run(w, acts).conns| == |w.conns|
    ensures Run(w, acts).conns[k].sender.log.since == w.conns[k].sender.log.since
    decreases |acts|
  {
    hide Invariant, Scan, CopyNext, SendOnce, ResetConn, CumBytes;
    if acts != [] {
      StepKeepsInvariant(w, acts[0]);
      StepKeepsSince(w, acts[0], k);
      SinceStays(Step(w, acts[0]), acts[1..], k);
    }
  }

  lemma StepKeepsSince(w: World, a: Action, k: nat)
    requires k < |w.conns| && !(a.Connect? && a.k == k)
    ensures |Step(w, a).conns| == |w.conns|
    ensures Step(w, a).conns[k].sender.log.since == w.conns[k].sender.log.since
  {
    hide Scan, CumBytes, TakeEligible, CursorOk;
    if Enabled(w, a) && a.Copy? {
      TakeKeepsSince(JumpToOldest(w.conns[a.k].sender, w.hist), w.hist, a.now, a.stale);
    }
  }

  lemma {:induction false} TakeKeepsSince(s: Sender, h: seq<Entry>, now: nat, stale: nat)
    requires CursorOk(s, h)
    ensures TakeEligible(s, h, now, stale).0.log.since == s.log.since
    decreases |h| - s.cursorSeq
  {
    hide CumBytes, AllPushable;
    if s.cursorSeq < |h| && TooOld(h, s.cursorSeq, now, stale) {
      TakeKeepsSince(DropStale(s, h), h, now, stale);
    }
  }

  // In every run: what a connection sends was pushed after it was made. No frame that waited for it,
  // and no rest of one, goes out on a later connection.
  lemma SentIsNewer(n: nat, before: seq<Action>, k: nat, now: nat, after: seq<Action>)
    requires k < n && Enabled(Run(Start(n), before), Connect(k, now))
    requires forall i :: 0 <= i < |after| ==> !(after[i].Connect? && after[i].k == k)
    ensures var w := Run(Start(n), before);
            var v := Run(Start(n), before + [Connect(k, now)] + after);
            && |v.conns| == n
            && forall i :: 0 <= i < |v.conns[k].sender.log.taken| ==> |w.hist| <= v.conns[k].sender.log.taken[i]
  {
    hide Run, Scan, CumBytes, Accounted, WireClean, InStep;
    var w := Run(Start(n), before);
    var c := Connect(k, now);
    StartOk(n);
    RunKeepsInvariant(Start(n), before);
    StepKeepsInvariant(w, c);
    RunAppend(Start(n), before, [c]);
    RunOne(w, c);
    RunAppend(Start(n), before + [c], after);
    RunKeepsInvariant(Step(w, c), after);
    SinceStays(Step(w, c), after, k);
    var v := Run(Start(n), before + [c] + after);
    assert ConnOk(v.conns[k], v.hist);
    assert Step(w, c).conns[k].sender.log.since == |w.hist|;
  }

  // The ring's history is what the scan of the UART bytes yields, frame by frame, minus what the
  // UART task still has in hand; a re-initialised parser starts over behind what was pushed.
  lemma RingFollowsUart(n: nat, acts: seq<Action>)
    ensures var w := Run(Start(n), acts);
            && w.base <= |w.hist|
            && Bytes(w.hist[w.base..]) <= Scan(w.fed).frames
            && (w.outbox == [] ==> Bytes(w.hist[w.base..]) == Scan(w.fed).frames)
  {
    StartOk(n);
    RunKeepsInvariant(Start(n), acts);
    var w := Run(Start(n), acts);
    assert Bytes(w.hist[w.base..]) <= Bytes(w.hist[w.base..] + w.outbox);
    assert w.hist[w.base..] + [] == w.hist[w.base..];
  }

  // Conservation and fates, in every reachable state, for every connection.
  lemma EveryByteAccounted(n: nat, acts: seq<Action>, k: nat)
    requires k < n
    ensures var w := Run(Start(n), acts);
            && |w.conns| == n
            && var s := w.conns[k].sender;
               var c := s.totals;
               && |s.log.fate| == s.cursorSeq <= |w.hist|
               && c.skippedFrames == |set i | 0 <= i < s.cursorSeq && s.log.fate[i] == Skipped|
               && c.droppedFramesStale == |set i | 0 <= i < s.cursorSeq && s.log.fate[i] == Stale|
               && c.acceptedToLwip + Pending(s) + c.droppedBytes + c.skippedBytes + c.droppedStaleBytes
                    + (CumBytes(w.hist) - s.cumThrough) == CumBytes(w.hist)
               && s.cumThrough == CumBytes(w.hist[..s.cursorSeq])
  {
    StartOk(n);
    RunKeepsInvariant(Start(n), acts);
    var w := Run(Start(n), acts);
    assert ConnOk(w.conns[k], w.hist);
    var s := w.conns[k].sender;
    BytesConserved(s, w.hist);
    FateCountIsSize(s.log.fate, Skipped);
    FateCountIsSize(s.log.fate, Stale);
  }

  // What was decided about a frame is never decided again: the fates only grow, and so does the
  // history they speak of.
  predicate Extends(w: World, v: World)
  {
    && w.hist <= v.hist
    && |w.conns| == |v.conns|
    && forall k :: 0 <= k < |w.conns| ==> w.conns[k].sender.log.fate <= v.conns[k].sender.log.fate
  }

  lemma StepExtends(w: World, a: Action)
    requires Invariant(w)
    ensures Extends(w, Step(w, a))
  {
    hide SenderOk, Scan, CopyNext, SendOnce, ResetConn;
    if Enabled(w, a) && (a.Connect? || a.Copy? || a.Send? || a.Close?) {
      assert ConnOk(w.conns[a.k], w.hist);
      FatesGrow(w.conns[a.k].sender, w.hist, a);
    }
  }

  lemma FatesGrow(s: Sender, h: seq<Entry>, a: Action)
    ensures a.Connect? && CursorOk(s, h) ==> s.log.fate <= ResetConn(s, h, a.now).log.fate
    ensures a.Copy? && CursorOk(s, h) ==> s.log.fate <= CopyNext(s, h, a.now, a.stale).0.log.fate
    ensures a.Send? && HasPending(s) ==> s.log.fate == SendOnce(s, a.outcome, a.now).0.log.fate
  {
    hide CumBytes;
    if a.Copy? && CursorOk(s, h) {
      CopyNextDecides(s, h, a.now, a.stale);
    }
  }

  lemma {:induction false} FatesAreFinal(w: World, acts: seq<Action>)
    requires Invariant(w)
    ensures Extends(w, Run(w, acts))
    decreases |acts|
  {
    if acts != [] {
      StepExtends(w, acts[0]);
      StepKeepsInvariant(w, acts[0]);
      FatesAreFinal(Step(w, acts[0]), acts[1..]);
    }
  }

  // --------------------------------------------------------- polls are runs

  // The steps an undisturbed poll of connection k takes.
  function PollActions(k: nat, s: Sender, h: seq<Entry>, now: nat, stale: nat, outcomes: seq<SendOutcome>)
    : seq<Action>
    requires CursorOk(s, h)
    decreases |outcomes|
  {
    if outcomes == [] then []
    else
      var copying := if HasPending(s) then [] else [Copy(k, now, stale)];
      var (t, ready) := if HasPending(s) then (s, true) else CopyNext(s, h, now, stale);
      if !ready then copying
      else
        var (u, v) := SendOnce(t, outcomes[0], now);
        copying + [Send(k, outcomes[0], now)]
          + (if v.Return? then [] else PollActions(k, u, h, now, stale, outcomes[1..]))
  }

  lemma {:induction false} RunAppend(w: World, a: seq<Action>, b: seq<Action>)
    ensures Run(w, a + b) == Run(Run(w, a), b)
    decreases |a|
  {
    if a == [] {
      assert a + b == b;
    } else {
      assert (a + b)[0] == a[0] && (a + b)[1..] == a[1..] + b;
      RunAppend(Step(w, a[0]), a[1..], b);
    }
  }

  lemma RunOne(w: World, a: Action)
    ensures Run(w, [a]) == Step(w, a)
  {
    assert Run(w, [a]) == Run(Step(w, a), [a][1..]);
  }

  // A poll that runs undisturbed is the run of its critical sections and sends, so whatever holds
  // of every run holds across polls, and pushes may come between any two of its steps.
  lemma {:induction false} PollIsRun(w: World, k: nat, now: nat, stale: nat, outcomes: seq<SendOutcome>,
                                     before: PollResult)
    requires Invariant(w) && k < |w.conns| && w.conns[k].phase == Open
    requires before == Idle || before == Progress
    ensures CursorOk(w.conns[k].sender, w.hist)
    ensures var s := w.conns[k].sender;
            var (t, result) := Poll(s, w.hist, now, stale, outcomes, before);
            Run(w, PollActions(k, s, w.hist, now, stale, outcomes))
              == SetConn(w, k, Conn(if result == Error then Broken else Open, t))
    decreases |outcomes|
  {
    hide SenderOk, Scan, CopyNext, SendOnce, CumBytes, AllPushable, IngestOk;
    var s := w.conns[k].sender;
    assert ConnOk(w.conns[k], w.hist);
    SenderFollows(s, w.hist);
    assert w.conns[k := w.conns[k]] == w.conns;
    if outcomes != [] {
      var copying := if HasPending(s) then [] else [Copy(k, now, stale)];
      var (t, ready) := if HasPending(s) then (s, true) else CopyNext(s, w.hist, now, stale);
      var v := Run(w, copying);
      if !HasPending(s) {
        RunOne(w, copying[0]);
        StepKeepsInvariant(w, copying[0]);
      }
      assert v == SetConn(w, k, Conn(Open, t)) && Invariant(v);
      if ready {
        PollSend(w, v, k, now, stale, outcomes, copying, t);
        var (u, vd) := SendOnce(t, outcomes[0], now);
        SendOnceMeans(t, outcomes[0], now);
        if vd == Continue {
          var x := Step(v, Send(k, outcomes[0], now));
          StepKeepsInvariant(v, Send(k, outcomes[0], now));
          PollIsRun(x, k, now, stale, outcomes[1..], Progress);
        }
      }
    }
  }

  // The send of one round, after its copy.
  lemma PollSend(w: World, v: World, k: nat, now: nat, stale: nat, outcomes: seq<SendOutcome>,
                 copying: seq<Action>, t: Sender)
    requires k < |w.conns| && outcomes != [] && HasPending(t) && CursorOk(t, w.hist)
    requires v == Run(w, copying) == SetConn(w, k, Conn(Open, t))
    ensures var (u, vd) := SendOnce(t, outcomes[0], now);
            var x := Step(v, Send(k, outcomes[0], now));
            && x == SetConn(w, k, Conn(if vd == Return(Error) then Broken else Open, u))
            && CursorOk(u, w.hist)
            && Run(w, copying + [Send(k, outcomes[0], now)] + []) == x
            && (vd == Continue ==>
                  var rest := PollActions(k, u, w.hist, now, stale, outcomes[1..]);
                  Run(w, copying + [Send(k, outcomes[0], now)] + rest) == Run(x, rest))
  {
    var one := [Send(k, outcomes[0], now)];
    var (u, vd) := SendOnce(t, outcomes[0], now);
    RunAppend(w, copying, one);
    RunOne(v, one[0]);
    assert copying + one + [] == copying + one;
    if vd == Continue {
      RunAppend(w, copying + one, PollActions(k, u, w.hist, now, stale, outcomes[1..]));
    }
  }
}
