// Whether a freshly installed image is confirmed, kept waiting or rolled back: one check every
// ten seconds until the data plane has proved itself, or has been shown to be at fault.
module OtaConfirm {
  import opened RtcmScan
  import opened FrameRing
  import opened NtripTx
  import opened TxAccounting
  import opened TxRuns
  import F = MsgFreshness
  import C = FreshCalls
  import S = Station
  import OtaAttempts

  const STABLE_N: nat := 3
  const MIN_FRAME_DELTA: nat := 10
  const MIN_BYTE_DELTA: nat := 2048
  const UNPROV_MS: nat := 600_000
  const MIN_HEAP_B: nat := 20480
  const DEADLINE_MS: nat := 1_800_000

  // What one check reads.
  datatype Check = Check(
    elapsedMs: nat, framesOk: nat, accepted: nat, instances: nat, recoveries: nat,
    allFresh: bool, allFreshAgain: bool, freeHeap: nat)

  datatype Decision = KeepWatching | Semantic | Unprovisioned | LocalFault

  // Counters may be zeroed in between: what went down counts as nothing.
  function Delta(now: nat, before: nat): nat { if now > before then now - before else 0 }

  // The interval that ends at check `i` showed a healthy data plane.
  predicate Good(cs: seq<Check>, i: nat)
    requires i < |cs|
  {
    && i >= 1
    && cs[i].recoveries == cs[i - 1].recoveries
    && Delta(cs[i].framesOk, cs[i - 1].framesOk) >= MIN_FRAME_DELTA
    && cs[i].allFresh
    && cs[i].instances > 0
    && Delta(cs[i].accepted, cs[i - 1].accepted) >= MIN_BYTE_DELTA
  }

  // Three healthy intervals in a row.
  predicate ThreeGood(cs: seq<Check>, i: nat)
    requires i < |cs|
  {
    i >= STABLE_N && Good(cs, i - 2) && Good(cs, i - 1) && Good(cs, i)
  }

  function DecisionAt(cs: seq<Check>, i: nat): Decision
    requires i < |cs|
  {
    if ThreeGood(cs, i) then Semantic
    else if cs[i].instances == 0 && cs[i].elapsedMs >= UNPROV_MS && cs[i].freeHeap > MIN_HEAP_B then Unprovisioned
    else if cs[i].elapsedMs >= DEADLINE_MS && !cs[i].allFreshAgain then LocalFault
    else KeepWatching
  }

  // The first check that decides, or the number of checks.
  predicate DecidesAt(cs: seq<Check>, n: nat)
  {
    && n <= |cs|
    && (forall i :: 0 <= i < n ==> DecisionAt(cs, i) == KeepWatching)
    && (n < |cs| ==> DecisionAt(cs, n) != KeepWatching)
  }

  // Healthy intervals in a row up to the one before check `i`.
  function Streak(cs: seq<Check>, i: nat): (r: nat)
    requires i <= |cs|
    ensures r <= i
  {
    if i == 0 || !Good(cs, i - 1) then 0 else Streak(cs, i - 1) + 1
  }

  lemma StreakIsThree(cs: seq<Check>, i: nat)
    requires i < |cs|
    ensures Streak(cs, i + 1) >= STABLE_N <==> ThreeGood(cs, i)
  {
    hide Good;
    if i >= 2 {
      assert Streak(cs, i - 2) >= 0;
      assert Streak(cs, i - 1) == if Good(cs, i - 2) then Streak(cs, i - 2) + 1 else 0;
      assert Streak(cs, i) == if Good(cs, i - 1) then Streak(cs, i - 1) + 1 else 0;
      assert Streak(cs, i + 1) == if Good(cs, i) then Streak(cs, i) + 1 else 0;
    }
    FirstIsNotGood(cs);
  }

  lemma FirstIsNotGood(cs: seq<Check>)
    ensures cs != [] ==> !Good(cs, 0)
  {
  }

  datatype Result = Result(decision: Decision, at: nat, rolledBack: bool, confirmed: bool)

  // The loop over the checks.
  method Watch(cs: seq<Check>) returns (d: Decision, n: nat)
    ensures DecidesAt(cs, n)
    ensures d == if n < |cs| then DecisionAt(cs, n) else KeepWatching
  {
    hide ThreeGood, Streak;
    var havePrev := false;
    var prevRec, prevFrames, prevBytes := 0, 0, 0;
    var stable := 0;
    assert Streak(cs, 0) == 0 by { StreakStarts(cs); }
    n := 0;
    while n < |cs|
      invariant 0 <= n <= |cs|
      invariant stable == Streak(cs, n) && stable < STABLE_N
      invariant havePrev == (n > 0)
      invariant n > 0 ==> prevRec == cs[n - 1].recoveries
      invariant n > 0 ==> prevFrames == cs[n - 1].framesOk && prevBytes == cs[n - 1].accepted
      invariant forall i :: 0 <= i < n ==> DecisionAt(cs, i) == KeepWatching
    {
      var t := cs[n];
      var dFrames := if t.framesOk > prevFrames then t.framesOk - prevFrames else 0;
      var dBytes := if t.accepted > prevBytes then t.accepted - prevBytes else 0;
      var noNewRec := havePrev && t.recoveries == prevRec;
      prevFrames, prevBytes, prevRec := t.framesOk, t.accepted, t.recoveries;
      havePrev := true;

      var gnssOk := dFrames >= MIN_FRAME_DELTA && t.allFresh;
      var casterGood := t.instances > 0 && dBytes >= MIN_BYTE_DELTA;
      stable := if gnssOk && noNewRec && casterGood then stable + 1 else 0;
      StreakStep(cs, n);
      StreakIsThree(cs, n);
      if stable >= STABLE_N {
        return Semantic, n;
      }
      if t.instances == 0 && t.elapsedMs >= UNPROV_MS && t.freeHeap > MIN_HEAP_B {
        return Unprovisioned, n;
      }
      if t.elapsedMs >= DEADLINE_MS && !t.allFreshAgain {
        return LocalFault, n;
      }
      n := n + 1;
    }
    d := KeepWatching;
  }

  lemma StreakStarts(cs: seq<Check>)
    ensures Streak(cs, 0) == 0
  {
  }

  lemma StreakStep(cs: seq<Check>, i: nat)
    requires i < |cs|
    ensures Streak(cs, i + 1) == if Good(cs, i) then Streak(cs, i) + 1 else 0
  {
  }

  // ---------------------------------------------------------- acting on it

  // What the flash operations answer.
  datatype ImageEnv = ImageEnv(pendingVerify: bool, markValidWorks: bool, nvsOpens: bool, rollbackWorks: bool)

  // The whole task: watch, then confirm or roll back. The attempt budget is cleared only behind
  // a confirmation that worked.
  method MarkValidTask(cs: seq<Check>, env: ImageEnv, budget: OtaAttempts.Budget) returns (r: Result)
    requires budget.Valid()
    modifies budget
    ensures budget.Valid() && DecidesAt(cs, r.at)
    ensures r.decision == if r.at < |cs| then DecisionAt(cs, r.at) else KeepWatching
    ensures r.confirmed <==> r.decision in {Semantic, Unprovisioned} && env.pendingVerify && env.markValidWorks
    ensures r.rolledBack <==> r.decision == LocalFault && env.pendingVerify && env.rollbackWorks
    ensures budget.log == old(budget.log) + if r.confirmed && env.nvsOpens then [OtaAttempts.Confirmed] else []
  {
    hide DecidesAt, DecisionAt;
    var d, n := Watch(cs);
    r := Result(d, n, false, false);
    match d {
      case KeepWatching =>
      case LocalFault =>
        if env.pendingVerify {
          r := r.(rolledBack := env.rollbackWorks);
        }
      case _ =>
        if env.pendingVerify {
          if env.markValidWorks {
            r := r.(confirmed := true);
          }
        }
        if r.confirmed && env.nvsOpens {
          budget.ClearAttempts();
        }
    }
  }

  // ------------------------------------------------ frames and bytes counted

  // Frames handed to the ring, or about to be, since power-on; and the parser's own counter, which
  // starts over when the receiver is reset.
  function FramesEver(w: World): nat { |w.hist| + |w.outbox| }

  function FramesCounted(w: World): nat { |Scan(w.fed).frames| }

  lemma CounterLags(w: World)
    requires Invariant(w)
    ensures FramesEver(w) == w.base + FramesCounted(w)
  {
    hide Scan;
    assert |Bytes(w.hist[w.base..] + w.outbox)| == |w.hist| - w.base + |w.outbox|;
  }

  lemma StepMovesOn(w: World, a: Action)
    requires Invariant(w)
    ensures Step(w, a).base >= w.base && FramesEver(Step(w, a)) >= FramesEver(w)
  {
    hide Scan, Invariant;
    if Enabled(w, a) && a.Ingest? {
      assert IngestOk(w) by { InvariantIngest(w); }
    }
  }

  lemma InvariantIngest(w: World)
    requires Invariant(w)
    ensures IngestOk(w)
  {
  }

  lemma {:induction false} RunMovesOn(w: World, acts: seq<Action>)
    requires Invariant(w)
    ensures Invariant(Run(w, acts)) && Run(w, acts).base >= w.base && FramesEver(Run(w, acts)) >= FramesEver(w)
    decreases |acts|
  {
    hide Invariant, Step, Scan;
    if acts != [] {
      StepMovesOn(w, acts[0]);
      StepKeepsInvariant(w, acts[0]);
      RunMovesOn(Step(w, acts[0]), acts[1..]);
    }
  }

  // Whatever happened in between, parser restarts included, the clamped difference of two
  // readings never exceeds the number of frames received between them.
  lemma DeltaNeverOverstates(w: World, acts: seq<Action>)
    requires Invariant(w)
    ensures Delta(FramesCounted(Run(w, acts)), FramesCounted(w)) <= FramesEver(Run(w, acts)) - FramesEver(w)
  {
    hide Invariant, Run, Scan;
    RunMovesOn(w, acts);
    CounterLags(w);
    CounterLags(Run(w, acts));
  }

  // The total a check reads: bytes accepted for all connections over the lifetime.
  function Accepted(conns: seq<Conn>): nat
  {
    if conns == [] then 0
    else Accepted(conns[..|conns| - 1]) + conns[|conns| - 1].sender.totals.acceptedToLwip
  }

  lemma {:induction false} AcceptedUpdate(conns: seq<Conn>, k: nat, c: Conn)
    requires k < |conns|
    ensures Accepted(conns[k := c])
         == Accepted(conns) - conns[k].sender.totals.acceptedToLwip + c.sender.totals.acceptedToLwip
  {
    var n := |conns| - 1;
    if k == n {
      assert conns[k := c][..n] == conns[..n];
    } else {
      assert conns[k := c][..n] == conns[..n][k := c];
      AcceptedUpdate(conns[..n], k, c);
    }
  }

  // What one step adds to the wire of the connection that sends in it.
  function WireGrowth(w: World, a: Action): int
  {
    if a.Send? && Enabled(w, a)
    then |SendOnce(w.conns[a.k].sender, a.outcome, a.now).0.log.wire| - |w.conns[a.k].sender.log.wire|
    else 0
  }

  // The bytes put onto sockets in a run.
  function SocketBytes(w: World, acts: seq<Action>): int
    decreases |acts|
  {
    if acts == [] then 0 else WireGrowth(w, acts[0]) + SocketBytes(Step(w, acts[0]), acts[1..])
  }

  lemma StepAccepts(w: World, a: Action)
    ensures Accepted(Step(w, a).conns) == Accepted(w.conns) + WireGrowth(w, a) && WireGrowth(w, a) >= 0
    ensures |Step(w, a).conns| == |w.conns|
  {
    hide Scan, Accepted, CursorOk, CopyNext, ResetConn, SendOnce, CumBytes;
    if Enabled(w, a) {
      match a
      case Connect(k, now) =>
        ResetAccepts(w.conns[k].sender, w.hist, now);
        AcceptedUpdate(w.conns, k, Step(w, a).conns[k]);
      case Copy(k, now, stale) =>
        CopySendsNothing(w.conns[k].sender, w.hist, now, stale);
        AcceptedUpdate(w.conns, k, Step(w, a).conns[k]);
      case Send(k, o, now) =>
        SendAccepts(w.conns[k].sender, o, now);
        AcceptedUpdate(w.conns, k, Step(w, a).conns[k]);
      case Close(k) => AcceptedUpdate(w.conns, k, Step(w, a).conns[k]);
      case _ =>
    }
  }

  lemma ResetAccepts(s: Sender, h: seq<Entry>, now: nat)
    requires CursorOk(s, h)
    ensures ResetConn(s, h, now).totals.acceptedToLwip == s.totals.acceptedToLwip
  {
    hide CumBytes;
  }

  lemma SendAccepts(s: Sender, o: SendOutcome, now: nat)
    requires HasPending(s)
    ensures var t := SendOnce(s, o, now).0;
            t.totals.acceptedToLwip - s.totals.acceptedToLwip == |t.log.wire| - |s.log.wire| >= 0
  {
  }

  // The counter grows by exactly what the sockets took, across connections that break, close and
  // are made again.
  lemma {:induction false} RunAccepts(w: World, acts: seq<Action>)
    ensures Accepted(Run(w, acts).conns) == Accepted(w.conns) + SocketBytes(w, acts) && SocketBytes(w, acts) >= 0
    ensures |Run(w, acts).conns| == |w.conns|
    decreases |acts|
  {
    hide Step, Accepted, WireGrowth;
    if acts != [] {
      StepAccepts(w, acts[0]);
      RunAccepts(Step(w, acts[0]), acts[1..]);
    }
  }

  // ------------------------------------------- what the checks are readings of

  // A life of the station: its number of connections and the turns its tasks take from power-on.
  datatype Life = Life(lag: nat, conns: nat, turns: seq<S.Turn>)

  function At(l: Life, p: nat): S.Station
    requires p <= |l.turns|
  {
    S.At(l.lag, S.PowerOn(l.conns), l.turns, p)
  }

  predicate CallAt(l: Life, p: nat, q: nat) { S.CallAt(l.lag, S.PowerOn(l.conns), l.turns, p, q) }

  // What the data plane did between two turns of the life.
  function Acts(l: Life, p: nat, q: nat): seq<Action>
    requires p <= q <= |l.turns|
  {
    S.DataOf(l.lag, At(l, p), l.turns[p..q])
  }

  // When one check woke up, read the totals, and asked for freshness and was answered; behind the
  // deadline it asks again.
  datatype Reading = Reading(woke: nat, totals: nat, asked: nat, answered: nat, askedAgain: nat, answeredAgain: nat)

  predicate Asked(l: Life, r: Reading)
  {
    r.woke <= r.totals <= r.asked < r.answered <= |l.turns| && CallAt(l, r.asked, r.answered)
  }

  predicate AskedAgain(l: Life, r: Reading)
  {
    r.answered <= r.askedAgain < r.answeredAgain <= |l.turns| && CallAt(l, r.askedAgain, r.answeredAgain)
  }

  predicate SaysFresh(v: S.Station)
  {
    var r := v.words.reader;
    r.Done? && |r.seen| == |F.REQUIRED| && F.AllFresh(r)
  }

  predicate ReadsTotals(w: World, c: Check)
  {
    c.framesOk == FramesCounted(w) && c.accepted == Accepted(w.conns) && c.instances == |w.conns|
  }

  predicate Reads(l: Life, born: nat, r: Reading, c: Check)
  {
    && Asked(l, r)
    && born + c.elapsedMs == At(l, r.woke).words.clock
    && ReadsTotals(At(l, r.totals).tx, c)
    && c.allFresh == SaysFresh(At(l, r.answered))
    && (c.elapsedMs >= DEADLINE_MS ==> AskedAgain(l, r) && c.allFreshAgain == SaysFresh(At(l, r.answeredAgain)))
  }

  // The checks of one task that started at time `born`, one behind the other.
  predicate Observed(l: Life, born: nat, rs: seq<Reading>, cs: seq<Check>)
  {
    && |rs| == |cs|
    && (forall i :: 0 <= i < |cs| ==> Reads(l, born, rs[i], cs[i]))
    && (forall i :: 0 < i < |cs| ==> rs[i - 1].answered <= rs[i].woke)
    && (forall i :: 0 < i < |cs| && cs[i - 1].elapsedMs >= DEADLINE_MS ==> rs[i - 1].answeredAgain <= rs[i].woke)
  }

  lemma LifeOk(l: Life, p: nat)
    requires p <= |l.turns|
    ensures S.StationOk(l.lag, At(l, p)) && Invariant(At(l, p).tx)
  {
    hide S.Live, Invariant, S.Tied, C.Ordered;
    S.PowerOnOk(l.lag, l.conns);
    S.LiveOk(l.lag, S.PowerOn(l.conns), l.turns[..p]);
  }

  lemma IntervalIsRun(l: Life, p: nat, q: nat)
    requires p <= q <= |l.turns|
    ensures At(l, q).tx == Run(At(l, p).tx, Acts(l, p, q))
  {
    hide S.Live, Run, S.DataOf;
    S.Between(l.lag, S.PowerOn(l.conns), l.turns, p, q);
    S.LiveIsDataRun(l.lag, At(l, p), l.turns[p..q]);
  }

  lemma AnsweredCall(l: Life, p: nat, q: nat)
    requires CallAt(l, p, q)
    ensures p < q <= |l.turns| && C.Call(l.lag, At(l, p).words, At(l, q).words)
    ensures var b, v := At(l, p).words, At(l, q).words;
            && b.epoch < |b.starts| && v.reader.Done? && v.reader.epoch < |v.starts|
            && |v.reader.seen| == |F.REQUIRED|
  {
    hide S.Live, S.Allowed, S.Tied, Invariant, C.Latest, C.TagsBehind, C.Within, F.Sorted, F.CellOk, F.WriterOk;
    hide F.CallShort;
    S.PowerOnOk(l.lag, l.conns);
    S.CallsAreCalls(l.lag, S.PowerOn(l.conns), l.turns, p, q);
  }

  // ------------------------------------------- what a confirmation stands for

  // The answer at turn `q` stands for a frame of every required type, received in the epoch the call
  // saw and within its budget, that went or is about to go into the ring.
  ghost predicate AllReceived(l: Life, q: nat)
    requires q <= |l.turns|
  {
    var v := At(l, q);
    && v.words.reader.Done? && v.words.reader.epoch < |v.words.starts|
    && forall j :: 0 <= j < |F.REQUIRED| ==>
         S.ReceivedIn(v, j, v.words.starts[v.words.reader.epoch], v.words.reader.now)
  }

  // No required type was silent for 49 days when the call began.
  ghost predicate NoneSilent(l: Life, p: nat)
    requires p <= |l.turns|
  {
    forall j :: 0 <= j < |F.REQUIRED| ==> C.StampedLately(At(l, p).words, j)
  }

  lemma FreshMeansReceived(l: Life, p: nat, q: nat)
    requires CallAt(l, p, q) && NoneSilent(l, p)
    ensures SaysFresh(At(l, q)) ==> AllReceived(l, q)
  {
    hide S.Live, S.CallAt, F.AllFresh, F.Heard, C.StampedLately, S.ReceivedIn, S.StationOk, C.Call;
    AnsweredCall(l, p, q);
    var v := At(l, q);
    if SaysFresh(v) {
      C.StampedAndFreshMeansHeard(l.lag, At(l, p).words, v.words);
      LifeOk(l, q);
      forall j | 0 <= j < |F.REQUIRED|
        ensures S.ReceivedIn(v, j, v.words.starts[v.words.reader.epoch], v.words.reader.now)
      {
        S.HeardIsReceived(l.lag, v, j, v.words.starts[v.words.reader.epoch], v.words.reader.now);
      }
    }
  }

  // What one healthy interval stands for.
  ghost predicate Alive(l: Life, q: Reading, r: Reading)
  {
    && q.totals <= r.totals <= r.answered <= |l.turns|
    && FramesEver(At(l, r.totals).tx) >= FramesEver(At(l, q.totals).tx) + 10
    && SocketBytes(At(l, q.totals).tx, Acts(l, q.totals, r.totals)) >= 2048
    && At(l, r.totals).tx.conns != []
    && AllReceived(l, r.answered)
  }

  lemma GoodIsAlive(l: Life, born: nat, rs: seq<Reading>, cs: seq<Check>, i: nat)
    requires Observed(l, born, rs, cs) && 0 < i < |cs| && Good(cs, i)
    requires rs[i].asked <= |l.turns| && NoneSilent(l, rs[i].asked)
    ensures Alive(l, rs[i - 1], rs[i])
  {
    hide At, Acts, CallAt, Run, Invariant, FramesEver, FramesCounted, Accepted, SocketBytes, AllReceived, NoneSilent;
    hide SaysFresh;
    var q, r := rs[i - 1], rs[i];
    assert Reads(l, born, r, cs[i]) && Reads(l, born, q, cs[i - 1]);
    LifeOk(l, q.totals);
    IntervalIsRun(l, q.totals, r.totals);
    DeltaNeverOverstates(At(l, q.totals).tx, Acts(l, q.totals, r.totals));
    RunAccepts(At(l, q.totals).tx, Acts(l, q.totals, r.totals));
    FreshMeansReceived(l, r.asked, r.answered);
  }

  // A semantic confirmation comes at the fourth check or later, and in each of the three intervals in
  // front of it at least ten new frames came out of the parser and 2048 bytes went onto sockets; each
  // ended with a frame of every required type received in time and saw no receiver recovery.
  lemma ConfirmedMeansAlive(l: Life, born: nat, rs: seq<Reading>, cs: seq<Check>, n: nat)
    requires Observed(l, born, rs, cs) && DecidesAt(cs, n) && n < |cs| && DecisionAt(cs, n) == Semantic
    requires forall i :: 0 <= i <= n && n - 2 <= i ==> rs[i].asked <= |l.turns| && NoneSilent(l, rs[i].asked)
    ensures n >= 3
    ensures forall i :: n - 2 <= i <= n ==> Alive(l, rs[i - 1], rs[i]) && cs[i].recoveries == cs[i - 1].recoveries
  {
    hide Alive, Reads, At, NoneSilent;
    forall i | n - 2 <= i <= n ensures Alive(l, rs[i - 1], rs[i]) {
      assert Good(cs, i);
      GoodIsAlive(l, born, rs, cs, i);
    }
  }

  // ------------------------------------------------ what a rollback stands for

  // Every required type was heard, in the current epoch and within budget, when the call began.
  ghost predicate HeardAt(l: Life, p: nat)
    requires p <= |l.turns|
  {
    var b := At(l, p).words;
    b.epoch < |b.starts| && C.HeardBefore(b)
  }

  // Why a heard type can still read as missing: a tag of another epoch, the start of a reset under
  // way, a frame stamped in the call from a later clock reading, or a start out of reach.
  predicate Mishap(b: F.World, v: F.World, j: nat)
    requires b.epoch < |b.starts| && v.reader.Done? && j < |v.reader.seen|
  {
    var r, s := v.reader, v.reader.seen[j];
    || s.tag != r.epoch
    || b.starts[b.epoch] < r.since
    || (r.now < s.at && |b.frames| <= s.id < |v.frames| && v.frames[s.id].i == j && v.frames[s.id].at == s.at)
    || !F.StartInReach(s.at, r.since)
  }

  // A rollback comes after 30 minutes without health ever shown, whatever the caster does, and if the
  // receiver was heard when the deciding call began then a reset took effect in the call or one of
  // the types met with a mishap.
  lemma RollbackMeansLocalFault(l: Life, born: nat, rs: seq<Reading>, cs: seq<Check>, n: nat)
    requires Observed(l, born, rs, cs) && DecidesAt(cs, n) && n < |cs| && DecisionAt(cs, n) == LocalFault
    ensures cs[n].elapsedMs >= DEADLINE_MS && forall i :: 0 <= i <= n ==> !ThreeGood(cs, i)
    ensures AskedAgain(l, rs[n])
    ensures var b, v := At(l, rs[n].askedAgain).words, At(l, rs[n].answeredAgain).words;
            && b.epoch < |b.starts| && v.reader.Done? && |v.reader.seen| == |F.REQUIRED|
            && (HeardAt(l, rs[n].askedAgain) && v.reader.coherent ==>
                  exists j :: 0 <= j < |F.REQUIRED| && Mishap(b, v, j))
  {
    hide ThreeGood, At, CallAt, FramesCounted, Accepted, F.AllFresh, Mishap, C.Accepts, C.Call, F.Heard;
    var r := rs[n];
    assert Reads(l, born, r, cs[n]);
    forall i | 0 <= i <= n ensures !ThreeGood(cs, i) {
      assert DecisionAt(cs, i) != Semantic;
    }
    AnsweredCall(l, r.askedAgain, r.answeredAgain);
    var b, v := At(l, r.askedAgain).words, At(l, r.answeredAgain).words;
    if HeardAt(l, r.askedAgain) && v.reader.coherent {
      C.HeardAnswersIff(l.lag, b, v);
      var j :| 0 <= j < |F.REQUIRED| && !C.Accepts(v.reader, j);
      MishapOf(l.lag, b, v, j);
    }
  }

  lemma MishapOf(lag: nat, b: F.World, v: F.World, j: nat)
    requires C.Call(lag, b, v) && j < |F.REQUIRED| && b.epoch < |b.starts| && C.HeardBefore(b)
    requires v.reader.Done? && |v.reader.seen| == |F.REQUIRED| && !C.Accepts(v.reader, j)
    ensures Mishap(b, v, j)
  {
    hide F.Inv, C.Ordered, C.Within, F.Heard, F.StartInReach, F.CallShort;
    C.HeardButNotAccepted(lag, b, v, j);
  }

  // A check that decides nothing else, behind the deadline.
  predicate LeftToFreshness(cs: seq<Check>, n: nat)
    requires n < |cs|
  {
    && cs[n].elapsedMs >= 1_800_000 && !ThreeGood(cs, n)
    && !(cs[n].instances == 0 && cs[n].freeHeap > MIN_HEAP_B)
  }

  // When exactly a heard receiver is rolled back.
  lemma HeardRolledBackIff(l: Life, born: nat, rs: seq<Reading>, cs: seq<Check>, n: nat)
    requires Observed(l, born, rs, cs) && n < |cs| && LeftToFreshness(cs, n)
    ensures AskedAgain(l, rs[n])
    ensures HeardAt(l, rs[n].askedAgain) ==>
              var v := At(l, rs[n].answeredAgain).words;
              v.reader.Done? && |v.reader.seen| == |F.REQUIRED|
              && (DecisionAt(cs, n) == LocalFault
                  <==> !(v.reader.coherent && forall j :: 0 <= j < |F.REQUIRED| ==> C.Accepts(v.reader, j)))
  {
    hide ThreeGood, At, CallAt, FramesCounted, Accepted, F.AllFresh, C.Accepts, C.Call, F.Heard;
    var r := rs[n];
    assert Reads(l, born, r, cs[n]);
    AnsweredCall(l, r.askedAgain, r.answeredAgain);
    if HeardAt(l, r.askedAgain) {
      C.HeardAnswersIff(l.lag, At(l, r.askedAgain).words, At(l, r.answeredAgain).words);
    }
  }

  // And in an epoch of less than 25 days, heard and tagged, with no reset in the call: exactly if a
  // required frame was stamped in the call, from a later clock reading, before its word was read.
  lemma HeardRolledBackByClockIff(l: Life, born: nat, rs: seq<Reading>, cs: seq<Check>, n: nat)
    requires Observed(l, born, rs, cs) && n < |cs| && LeftToFreshness(cs, n)
    ensures AskedAgain(l, rs[n])
    ensures var b, v := At(l, rs[n].askedAgain).words, At(l, rs[n].answeredAgain).words;
            && b.epoch < |b.starts| && |b.cells| == |F.REQUIRED| && v.reader.Done? && |v.reader.seen| == |F.REQUIRED|
            && (HeardAt(l, rs[n].askedAgain) && (forall j :: 0 <= j < |F.REQUIRED| ==> b.cells[j].tag == b.epoch)
                && b.clock < b.starts[b.epoch] + F.HALF && C.SameEpoch(b, v.reader) && v.reader.coherent ==>
                  (DecisionAt(cs, n) == LocalFault
                   <==> exists j :: 0 <= j < |F.REQUIRED| && v.reader.now < v.reader.seen[j].at))
  {
    hide ThreeGood, At, CallAt, FramesCounted, Accepted, C.Accepts, C.Within, C.Latest, C.TagsBehind;
    hide F.AllFresh, F.Heard, F.EpochsOk, F.Sorted, F.CellOk, F.WriterOk, F.ReaderOk;
    var r := rs[n];
    assert Reads(l, born, r, cs[n]);
    AnsweredCall(l, r.askedAgain, r.answeredAgain);
    var b, v := At(l, r.askedAgain).words, At(l, r.answeredAgain).words;
    if HeardAt(l, r.askedAgain) && (forall j :: 0 <= j < |F.REQUIRED| ==> b.cells[j].tag == b.epoch)
       && b.clock < b.starts[b.epoch] + F.HALF && C.SameEpoch(b, v.reader) && v.reader.coherent {
      C.HeardAnswersInYoungEpochIff(l.lag, b, v);
    }
  }

  // And a receiver that delivers nothing is: if some required type was not received in time, the
  // answer behind the deadline is a rollback, unless the other rungs decide first.
  lemma DeafReceiverRolledBack(l: Life, born: nat, rs: seq<Reading>, cs: seq<Check>, n: nat)
    requires Observed(l, born, rs, cs) && n < |cs| && LeftToFreshness(cs, n)
    ensures AskedAgain(l, rs[n])
    ensures NoneSilent(l, rs[n].askedAgain) && !AllReceived(l, rs[n].answeredAgain) ==> DecisionAt(cs, n) == LocalFault
  {
    hide ThreeGood, At, CallAt, FramesCounted, Accepted, SaysFresh, NoneSilent, AllReceived;
    var r := rs[n];
    assert Reads(l, born, r, cs[n]);
    if NoneSilent(l, r.askedAgain) {
      FreshMeansReceived(l, r.askedAgain, r.answeredAgain);
    }
  }

  // ------------------------------------------- what is enough for a confirmation

  // One interval as healthy as can be asked for: ten frames from the parser without a restart of it,
  // 2048 bytes onto sockets, an answer that all types are fresh, and no recovery.
  predicate Healthy(l: Life, q: Reading, r: Reading, c: Check, d: Check)
  {
    && q.totals <= r.totals <= r.answered <= |l.turns|
    && At(l, r.totals).tx.base == At(l, q.totals).tx.base
    && FramesEver(At(l, r.totals).tx) >= FramesEver(At(l, q.totals).tx) + 10
    && SocketBytes(At(l, q.totals).tx, Acts(l, q.totals, r.totals)) >= 2048
    && At(l, r.totals).tx.conns != []
    && SaysFresh(At(l, r.answered)) && d.recoveries == c.recoveries
  }

  lemma HealthyIsGood(l: Life, born: nat, rs: seq<Reading>, cs: seq<Check>, i: nat)
    requires Observed(l, born, rs, cs) && 0 < i < |cs| && Healthy(l, rs[i - 1], rs[i], cs[i - 1], cs[i])
    ensures Good(cs, i)
  {
    hide At, Acts, CallAt, Run, Invariant, FramesEver, FramesCounted, Accepted, SocketBytes, SaysFresh;
    var q, r := rs[i - 1], rs[i];
    assert Reads(l, born, r, cs[i]) && Reads(l, born, q, cs[i - 1]);
    LifeOk(l, q.totals);
    LifeOk(l, r.totals);
    IntervalIsRun(l, q.totals, r.totals);
    CounterLags(At(l, q.totals).tx);
    CounterLags(At(l, r.totals).tx);
    RunAccepts(At(l, q.totals).tx, Acts(l, q.totals, r.totals));
  }

  // Three of them in a row confirm the image, at the fourth check at the earliest.
  lemma HealthyIsConfirmed(l: Life, born: nat, rs: seq<Reading>, cs: seq<Check>, n: nat)
    requires Observed(l, born, rs, cs) && 3 <= n < |cs|
    requires forall i :: n - 2 <= i <= n ==> Healthy(l, rs[i - 1], rs[i], cs[i - 1], cs[i])
    ensures DecisionAt(cs, n) == Semantic
  {
    hide Good, Healthy, Reads;
    HealthyIsGood(l, born, rs, cs, n - 2);
    HealthyIsGood(l, born, rs, cs, n - 1);
    HealthyIsGood(l, born, rs, cs, n);
  }

  lemma {:induction false} LifeKeepsConns(l: Life, p: nat)
    requires p <= |l.turns|
    ensures |At(l, p).tx.conns| == l.conns
  {
    hide Run, S.Live, S.DataOf;
    IntervalIsRun(l, 0, p);
    assert l.turns[..0] == [];
    RunAccepts(At(l, 0).tx, Acts(l, 0, p));
    PowerOnConns(l);
  }

  lemma PowerOnConns(l: Life)
    ensures |At(l, 0).tx.conns| == l.conns
  {
    assert l.turns[..0] == [];
  }

  // The exception for a device without an uploader: exactly a device with no connection configured is
  // confirmed that way, after ten minutes with 20 KiB of memory free; with one, never.
  lemma UnprovisionedIff(l: Life, born: nat, rs: seq<Reading>, cs: seq<Check>, n: nat)
    requires Observed(l, born, rs, cs) && n < |cs|
    ensures DecisionAt(cs, n) == Unprovisioned
       <==> (l.conns == 0 && cs[n].elapsedMs >= 600_000 && cs[n].freeHeap > 20480)
  {
    hide At, CallAt, SaysFresh;
    assert Reads(l, born, rs[n], cs[n]);
    LifeKeepsConns(l, rs[n].totals);
    assert cs[n].instances == 0 ==> !Good(cs, n);
  }
}
