// A life of the station in which an update is rolled back although the receiver delivers everything.
module OtaConfirmRuns {
  import opened NtripTx
  import opened TxRuns
  import opened OtaConfirm
  import F = MsgFreshness
  import C = FreshCalls
  import S = Station
  import R = StationRuns

  function LifeOf(turns: seq<S.Turn>): Life { Life(R.LAG, 1, turns) }

  // ------------------------------------------------------- longer lives

  lemma AtExtends(a: seq<S.Turn>, b: seq<S.Turn>, p: nat)
    requires a <= b && p <= |a|
    ensures At(LifeOf(b), p) == At(LifeOf(a), p)
  {
    hide S.Live;
    assert b[..p] == a[..p];
  }

  lemma CallExtends(a: seq<S.Turn>, b: seq<S.Turn>, p: nat, q: nat)
    requires a <= b && CallAt(LifeOf(a), p, q)
    ensures CallAt(LifeOf(b), p, q)
  {
    hide S.Live, S.Allowed, F.CallShort;
    AtExtends(a, b, p);
    AtExtends(a, b, q);
    assert b[p..q] == a[p..q];
  }

  lemma ReadsExtends(a: seq<S.Turn>, b: seq<S.Turn>, born: nat, r: Reading, c: Check)
    requires a <= b && Reads(LifeOf(a), born, r, c)
    ensures Reads(LifeOf(b), born, r, c)
  {
    hide At, CallAt, SaysFresh, ReadsTotals;
    AtExtends(a, b, r.woke);
    AtExtends(a, b, r.totals);
    AtExtends(a, b, r.answered);
    CallExtends(a, b, r.asked, r.answered);
    if c.elapsedMs >= DEADLINE_MS {
      AtExtends(a, b, r.answeredAgain);
      CallExtends(a, b, r.askedAgain, r.answeredAgain);
    }
  }

  lemma ObservedExtends(a: seq<S.Turn>, b: seq<S.Turn>, rs: seq<Reading>, cs: seq<Check>, r: Reading, c: Check)
    requires a <= b && Observed(LifeOf(a), 0, rs, cs) && Reads(LifeOf(b), 0, r, c)
    requires forall i :: 0 <= i < |cs| ==> cs[i].elapsedMs < DEADLINE_MS
    requires |a| <= r.woke
    ensures Observed(LifeOf(b), 0, rs + [r], cs + [c])
  {
    hide Reads;
    var rs1, cs1 := rs + [r], cs + [c];
    forall i | 0 <= i < |cs1| ensures Reads(LifeOf(b), 0, rs1[i], cs1[i]) {
      if i < |cs| {
        ReadsExtends(a, b, 0, rs[i], cs[i]);
      }
    }
    forall i | 0 < i < |cs1| ensures rs1[i - 1].answered <= rs1[i].woke {
      assert Reads(LifeOf(a), 0, rs[i - 1], cs[i - 1]);
      AnsweredInLife(LifeOf(a), rs[i - 1], cs[i - 1]);
    }
  }

  lemma AnsweredInLife(l: Life, r: Reading, c: Check)
    requires Reads(l, 0, r, c)
    ensures r.answered <= |l.turns|
  {
    hide At, CallAt, SaysFresh, ReadsTotals;
  }

  // ------------------------------------------------- checks without a caster

  // Check `i` with the receiver fresh and not a byte accepted.
  predicate Uneventful(c: Check, i: nat)
  {
    c.elapsedMs == 10_000 * (i + 1) && c.accepted == 0 && c.instances == 1 && c.allFresh
  }

  // So far the station has only waited, heard every type once before each check, and answered.
  predicate SoFar(turns: seq<S.Turn>, st: S.Station, rs: seq<Reading>, cs: seq<Check>)
  {
    && R.Reached(|turns|, turns, st) && R.AtRest(st)
    && |st.tx.hist| == 4 * |cs| && st.words.clock == 10_000 * |cs|
    && Observed(LifeOf(turns), 0, rs, cs)
    && forall i :: 0 <= i < |cs| ==> Uneventful(cs[i], i)
  }

  lemma TotalsAtRest(st: S.Station, c: Check)
    requires R.AtRest(st) && c.framesOk == FramesCounted(st.tx) && c.accepted == 0 && c.instances == 1
    ensures ReadsTotals(st.tx, c)
  {
    hide FramesCounted;
    var conns := st.tx.conns;
    assert conns == [Conn(Closed, INIT_SENDER)];
    assert Accepted(conns[..0]) == 0;
    assert Accepted(conns) == Accepted(conns[..0]) + INIT_SENDER.totals.acceptedToLwip;
  }

  // Ten seconds later: a chunk with every type, and a call.
  lemma NextCall(turns: seq<S.Turn>, st: S.Station, rs: seq<Reading>, cs: seq<Check>)
    returns (asked: seq<S.Turn>, answered: seq<S.Turn>, more: seq<S.Turn>, v: S.Station)
    requires SoFar(turns, st, rs, cs) && |cs| < 1000
    ensures turns <= asked < answered <= more && R.Reached(|more|, more, v)
    ensures R.AtRest(v) && R.JustHeard(v.words)
    ensures |v.tx.hist| == 4 * (|cs| + 1) && v.words.clock == 10_000 * (|cs| + 1)
    ensures At(LifeOf(more), |asked|) == v && CallAt(LifeOf(more), |asked|, |answered|)
    ensures SaysFresh(At(LifeOf(more), |answered|))
  {
    hide R.Reached, S.CallAt, S.At, Observed, F.AllFresh;
    var w;
    asked, v := R.WaitAndHear(turns, st, 10_000);
    answered, w := R.QuietCall(asked, v);
    more, w := R.EndCall(|asked|, answered, w);
    assert w == v by { AwayAgain(v, w); }
    CallExtends(answered, more, |asked|, |answered|);
    AtExtends(answered, more, |asked|);
    AtExtends(answered, more, |answered|);
  }

  lemma AwayAgain(v: S.Station, w: S.Station)
    requires R.AtRest(v) && w == v.(words := v.words.(reader := F.Away))
    ensures w == v
  {
  }

  lemma OneCheck(turns: seq<S.Turn>, st: S.Station, rs: seq<Reading>, cs: seq<Check>)
    returns (more: seq<S.Turn>, v: S.Station, rs1: seq<Reading>, cs1: seq<Check>)
    requires SoFar(turns, st, rs, cs) && |cs| < 179
    ensures SoFar(more, v, rs1, cs1) && |cs1| == |cs| + 1
  {
    hide R.Reached, CallAt, At, Observed, R.AtRest, R.JustHeard, FramesCounted, SaysFresh;
    var asked, answered;
    asked, answered, more, v := NextCall(turns, st, rs, cs);
    var p, q := |asked|, |answered|;
    var r := Reading(p, p, p, q, q, q);
    var c := Check(10_000 * (|cs| + 1), FramesCounted(v.tx), 0, 1, 0, true, true, 0);
    TotalsAtRest(v, c);
    assert Reads(LifeOf(more), 0, r, c) by { hide ReadsTotals; }
    ObservedExtends(turns, more, rs, cs, r, c);
    rs1, cs1 := rs + [r], cs + [c];
  }

  lemma {:induction false} ManyChecks(k: nat)
    returns (turns: seq<S.Turn>, st: S.Station, rs: seq<Reading>, cs: seq<Check>)
    requires k <= 179
    ensures SoFar(turns, st, rs, cs) && |rs| == |cs| == k
  {
    hide R.Reached, R.AtRest;
    if k == 0 {
      R.OriginAtRest();
      turns, st, rs, cs := [], R.ORIGIN, [], [];
    } else {
      turns, st, rs, cs := ManyChecks(k - 1);
      turns, st, rs, cs := OneCheck(turns, st, rs, cs);
    }
  }

  lemma UneventfulDecidesNothing(cs: seq<Check>, i: nat)
    requires i < |cs| && forall j :: 0 <= j < |cs| ==> Uneventful(cs[j], j)
    ensures !ThreeGood(cs, i) && (i < 179 ==> DecisionAt(cs, i) == KeepWatching)
  {
  }

  // A healthy receiver is rolled back. The caster is away for thirty minutes; every ten seconds every
  // required type is heard and every check finds them fresh. At the deadline the task asks once more,
  // and in that call, a millisecond behind its clock reading, the next frame arrives.
  lemma HealthyReceiverRolledBack() returns (l: Life, rs: seq<Reading>, cs: seq<Check>)
    ensures Observed(l, 0, rs, cs) && |cs| == 180
    ensures forall i :: 0 <= i < |cs| ==> cs[i].elapsedMs == 10_000 * (i + 1) && cs[i].allFresh
    ensures DecidesAt(cs, 179) && DecisionAt(cs, 179) == LocalFault
    ensures AskedAgain(l, rs[179]) && HeardAt(l, rs[179].askedAgain)
  {
    hide R.Reached, CallAt, At, Observed, R.AtRest, R.JustHeard, FramesCounted, SaysFresh, ThreeGood, HeardAt;
    var turns, st;
    turns, st, rs, cs := ManyChecks(179);
    var asked, answered, more, v := NextCall(turns, st, rs, cs);
    var all := LastCall(more, v, asked, answered);
    var p, q := |asked|, |answered|;
    var r := Reading(p, p, p, q, |more|, |all|);
    var c := Check(10_000 * 180, FramesCounted(v.tx), 0, 1, 0, true, false, 0);
    TotalsAtRest(v, c);
    assert Reads(LifeOf(all), 0, r, c) by { hide ReadsTotals; }
    ObservedExtends(turns, all, rs, cs, r, c);
    l, rs, cs := LifeOf(all), rs + [r], cs + [c];
    assert |rs| == 180 && rs[179] == r;
    forall i | 0 <= i < |cs| ensures !ThreeGood(cs, i) && (i < 179 ==> DecisionAt(cs, i) == KeepWatching) {
      UneventfulDecidesNothing(cs, i);
    }
  }

  lemma LastCall(turns: seq<S.Turn>, st: S.Station, asked: seq<S.Turn>, answered: seq<S.Turn>)
    returns (all: seq<S.Turn>)
    requires R.Reached(|turns|, turns, st) && R.AtRest(st) && R.JustHeard(st.words)
    requires asked < answered <= turns && At(LifeOf(turns), |asked|) == st
    requires CallAt(LifeOf(turns), |asked|, |answered|) && SaysFresh(At(LifeOf(turns), |answered|))
    ensures turns < all
    ensures At(LifeOf(all), |asked|) == st
    ensures CallAt(LifeOf(all), |asked|, |answered|) && SaysFresh(At(LifeOf(all), |answered|))
    ensures CallAt(LifeOf(all), |turns|, |all|) && !SaysFresh(At(LifeOf(all), |all|))
    ensures HeardAt(LifeOf(all), |turns|)
  {
    hide R.Reached, R.AtRest, S.CallAt, S.At, F.AllFresh, C.HeardBefore, F.StartInReach;
    var v;
    all, v := R.LateCall(turns, st);
    AtExtends(turns, all, |asked|);
    AtExtends(turns, all, |answered|);
    CallExtends(turns, all, |asked|, |answered|);
    R.JustHeardIsHeard(st.words);
  }
}
