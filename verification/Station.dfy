// The UART task as it is: it parses a chunk, and for every frame stamps its type and then pushes it
// into the ring. The send path and the freshness words, stepped together.
module Station {
  import opened Words
  import opened RtcmScan
  import opened FrameRing
  import T = TxRuns
  import F = MsgFreshness
  import C = FreshCalls

  // The required type of a frame, or -1.
  function RequiredIndex(f: seq<Byte>): (i: int)
    ensures -1 <= i < |F.REQUIRED|
    ensures i >= 0 ==> F.IsType(f, i)
    ensures forall j: nat :: F.IsType(f, j) ==> i == j
  {
    if F.IsType(f, 0) then 0
    else if F.IsType(f, 1) then 1
    else if F.IsType(f, 2) then 2
    else if F.IsType(f, 3) then 3
    else -1
  }

  // `stamped`: the frame at the head of the outbox has been stamped and not been pushed yet.
  datatype Station = Station(tx: T.World, words: F.World, stamped: bool)

  datatype Turn = Data(a: T.Action) | Word(s: F.Step)

  predicate DataAllowed(st: Station, a: T.Action)
  {
    && T.Enabled(st.tx, a)
    && (a.Ingest? ==> st.words.writer.Ingesting? && a.now == st.words.writer.now)
    && (a.Push? ==> st.words.writer.Ingesting? && (st.stamped || RequiredIndex(st.tx.outbox[0].bytes) < 0))
  }

  predicate WordAllowed(lag: nat, st: Station, s: F.Step)
  {
    && F.WriterShape(st.words) && F.Enabled(lag, st.words, s)
    && (s.StoreTime? ==> st.tx.outbox != [] && !st.stamped && st.tx.outbox[0] == Entry(s.frame, st.words.writer.now))
    && (s.EndIngest? ==> st.tx.outbox == [])
  }

  predicate Allowed(lag: nat, st: Station, t: Turn)
  {
    match t
    case Data(a) => DataAllowed(st, a)
    case Word(s) => WordAllowed(lag, st, s)
  }

  function Turned(lag: nat, st: Station, t: Turn): Station
    requires Allowed(lag, st, t)
  {
    match t
    case Data(a) => st.(tx := T.Do(st.tx, a), stamped := st.stamped && !a.Push?)
    case Word(s) => st.(words := F.Do(lag, st.words, s), stamped := st.stamped || s.StoreTime?)
  }

  // Turns that are not allowed do not happen.
  function Live(lag: nat, st: Station, turns: seq<Turn>): Station
    decreases |turns|
  {
    if turns == [] then st
    else Live(lag, if Allowed(lag, st, turns[0]) then Turned(lag, st, turns[0]) else st, turns[1..])
  }

  function PowerOn(n: nat): Station { Station(T.Start(n), F.Start(), false) }

  // -------------------------------------------------------------- the tie

  function StampOf(e: Entry): F.Stamped
    requires RequiredIndex(e.bytes) >= 0
  {
    F.Stamped(e.bytes, RequiredIndex(e.bytes), e.receivedMs)
  }

  // The stamps that go with frames of the ring.
  function Stamps(h: seq<Entry>): seq<F.Stamped>
  {
    if h == [] then []
    else
      var e := h[|h| - 1];
      Stamps(h[..|h| - 1]) + if RequiredIndex(e.bytes) >= 0 then [StampOf(e)] else []
  }

  lemma StampsPush(h: seq<Entry>, e: Entry)
    ensures Stamps(h + [e]) == Stamps(h) + if RequiredIndex(e.bytes) >= 0 then [StampOf(e)] else []
  {
    assert (h + [e])[..|h|] == h;
  }

  // What was stamped is exactly what was pushed of the required types, in order, and the frame in
  // hand if its turn has come.
  predicate Tied(st: Station)
  {
    && (st.stamped ==> st.tx.outbox != [] && RequiredIndex(st.tx.outbox[0].bytes) >= 0)
    && st.words.frames == Stamps(st.tx.hist) + (if st.stamped then [StampOf(st.tx.outbox[0])] else [])
    && (st.words.writer.Idle? ==> st.tx.outbox == [])
    && (st.words.writer.TimeStored? || st.words.writer.EpochRead? ==> st.stamped)
    && (!st.words.writer.Idle? ==> forall e :: e in st.tx.outbox ==> e.receivedMs == st.words.writer.now)
  }

  predicate StationOk(lag: nat, st: Station)
  {
    T.Invariant(st.tx) && C.Ordered(lag, st.words) && Tied(st)
  }

  lemma PowerOnOk(lag: nat, n: nat)
    ensures StationOk(lag, PowerOn(n))
  {
    hide C.Ordered;
    T.StartOk(n);
    C.StartOrdered(lag);
  }

  lemma DataTied(st: Station, a: T.Action)
    requires Tied(st) && DataAllowed(st, a)
    ensures Tied(st.(tx := T.Do(st.tx, a), stamped := st.stamped && !a.Push?))
  {
    hide Scan, RequiredIndex;
    if a.Push? {
      StampsPush(st.tx.hist, st.tx.outbox[0]);
    }
  }

  lemma WordTied(lag: nat, st: Station, s: F.Step)
    requires Tied(st) && WordAllowed(lag, st, s)
    ensures Tied(st.(words := F.Do(lag, st.words, s), stamped := st.stamped || s.StoreTime?))
  {
    hide IsFrame, F.IsType;
  }

  lemma TurnOk(lag: nat, st: Station, t: Turn)
    requires StationOk(lag, st) && Allowed(lag, st, t)
    ensures StationOk(lag, Turned(lag, st, t))
  {
    hide T.Invariant, T.Do, T.Enabled, C.Ordered, F.Do, F.Enabled, Tied, F.WriterShape;
    match t
    case Data(a) =>
      DataTied(st, a);
      T.StepKeepsInvariant(st.tx, a);
    case Word(s) =>
      WordTied(lag, st, s);
      C.StepOrdered(lag, st.words, s);
  }

  lemma {:induction false} LiveOk(lag: nat, st: Station, turns: seq<Turn>)
    requires StationOk(lag, st)
    ensures StationOk(lag, Live(lag, st, turns))
    decreases |turns|
  {
    hide StationOk, Allowed, Turned;
    if turns != [] {
      if Allowed(lag, st, turns[0]) {
        TurnOk(lag, st, turns[0]);
        LiveOk(lag, Turned(lag, st, turns[0]), turns[1..]);
      } else {
        LiveOk(lag, st, turns[1..]);
      }
    }
  }

  // In every life of the station: the freshness words are stamped with exactly the frames of the
  // required types that went into the ring, in order, at the times they were received.
  lemma RingIsStamped(lag: nat, n: nat, turns: seq<Turn>)
    ensures var st := Live(lag, PowerOn(n), turns);
            && (st.stamped ==> st.tx.outbox != [] && RequiredIndex(st.tx.outbox[0].bytes) >= 0)
            && st.words.frames == Stamps(st.tx.hist) + if st.stamped then [StampOf(st.tx.outbox[0])] else []
  {
    hide StationOk, Live;
    PowerOnOk(lag, n);
    LiveOk(lag, PowerOn(n), turns);
    OkIsTied(lag, Live(lag, PowerOn(n), turns));
  }

  lemma OkIsTied(lag: nat, st: Station)
    requires StationOk(lag, st)
    ensures Tied(st)
  {
  }

  lemma {:induction false} StampsInRing(h: seq<Entry>, k: nat)
    requires k < |Stamps(h)|
    ensures Entry(Stamps(h)[k].frame, Stamps(h)[k].at) in h
  {
    hide RequiredIndex;
    var n := |h| - 1;
    if k < |Stamps(h[..n])| {
      StampsInRing(h[..n], k);
    }
  }

  // A heard message is a frame that was received in that time and went, or is about to go, into the
  // ring.
  ghost predicate ReceivedIn(st: Station, i: nat, start: nat, now: nat)
    requires i < |F.REQUIRED|
  {
    exists e :: e in st.tx.hist + st.tx.outbox && ReceivedAs(e, i, start, now)
  }

  predicate ReceivedAs(e: Entry, i: nat, start: nat, now: nat)
    requires i < |F.REQUIRED|
  {
    F.IsType(e.bytes, i) && start < e.receivedMs <= now && now - e.receivedMs <= F.BUDGET_MS[i]
  }

  lemma HeardIsReceived(lag: nat, st: Station, i: nat, start: nat, now: nat)
    requires StationOk(lag, st) && i < |F.REQUIRED| && F.Heard(st.words, i, start, now)
    ensures ReceivedIn(st, i, start, now)
  {
    hide IsFrame, F.IsType, RequiredIndex, T.Invariant, C.Ordered;
    var k :| 0 <= k < |st.words.frames| && F.HeardAs(st.words.frames[k], i, start, now);
    var f := st.words.frames[k];
    var e := Entry(f.frame, f.at);
    if k < |Stamps(st.tx.hist)| {
      StampsInRing(st.tx.hist, k);
    }
    assert e in st.tx.hist + st.tx.outbox;
    assert ReceivedAs(e, i, start, now);
  }

  // ------------------------------------------------------------- projections

  function DataOf(lag: nat, st: Station, turns: seq<Turn>): seq<T.Action>
    decreases |turns|
  {
    if turns == [] then []
    else if !Allowed(lag, st, turns[0]) then DataOf(lag, st, turns[1..])
    else
      (if turns[0].Data? then [turns[0].a] else []) + DataOf(lag, Turned(lag, st, turns[0]), turns[1..])
  }

  function WordsOf(lag: nat, st: Station, turns: seq<Turn>): (r: seq<F.Step>)
    ensures forall s :: s in r ==> Word(s) in turns
    decreases |turns|
  {
    if turns == [] then []
    else if !Allowed(lag, st, turns[0]) then WordsOf(lag, st, turns[1..])
    else
      (if turns[0].Word? then [turns[0].s] else []) + WordsOf(lag, Turned(lag, st, turns[0]), turns[1..])
  }

  // The life of the station is a run of the send path,
  lemma {:induction false} LiveIsDataRun(lag: nat, st: Station, turns: seq<Turn>)
    ensures Live(lag, st, turns).tx == T.Run(st.tx, DataOf(lag, st, turns))
    decreases |turns|
  {
    hide T.Do, T.Enabled, F.Do, F.Enabled, RequiredIndex;
    if turns != [] {
      var t := turns[0];
      if Allowed(lag, st, t) {
        LiveIsDataRun(lag, Turned(lag, st, t), turns[1..]);
        var rest := DataOf(lag, Turned(lag, st, t), turns[1..]);
        assert [] + rest == rest;
        if t.Data? {
          assert ([t.a] + rest)[1..] == rest;
        }
      } else {
        LiveIsDataRun(lag, st, turns[1..]);
      }
    }
  }

  // and a run of the freshness words.
  lemma {:induction false} LiveIsWordRun(lag: nat, st: Station, turns: seq<Turn>)
    requires F.Inv(lag, st.words)
    ensures Live(lag, st, turns).words == F.Run(lag, st.words, WordsOf(lag, st, turns))
    decreases |turns|
  {
    hide T.Do, T.Enabled, F.Do, F.Enabled, F.Inv, F.WriterShape, RequiredIndex;
    if turns != [] {
      var t := turns[0];
      if Allowed(lag, st, t) {
        if t.Word? {
          F.StepInv(lag, st.words, t.s);
          LiveIsWordRun(lag, Turned(lag, st, t), turns[1..]);
          var rest := WordsOf(lag, Turned(lag, st, t), turns[1..]);
          assert ([t.s] + rest)[1..] == rest;
        } else {
          var u := Turned(lag, st, t);
          assert u.words == st.words;
          LiveIsWordRun(lag, u, turns[1..]);
          assert WordsOf(lag, st, turns) == [] + WordsOf(lag, u, turns[1..]) == WordsOf(lag, u, turns[1..]);
          assert Live(lag, st, turns) == Live(lag, u, turns[1..]);
        }
      } else {
        LiveIsWordRun(lag, st, turns[1..]);
      }
    }
  }

  lemma {:induction false} LiveInParts(lag: nat, st: Station, a: seq<Turn>, b: seq<Turn>)
    ensures Live(lag, st, a + b) == Live(lag, Live(lag, st, a), b)
    decreases |a|
  {
    hide Allowed, Turned;
    if a == [] {
      assert a + b == b;
    } else {
      assert (a + b)[1..] == a[1..] + b;
      LiveInParts(lag, if Allowed(lag, st, a[0]) then Turned(lag, st, a[0]) else st, a[1..], b);
    }
  }

  // ---------------------------------------------------------- positions in a life

  function At(lag: nat, first: Station, life: seq<Turn>, p: nat): Station
    requires p <= |life|
  {
    Live(lag, first, life[..p])
  }

  lemma Between(lag: nat, first: Station, life: seq<Turn>, p: nat, q: nat)
    requires p <= q <= |life|
    ensures At(lag, first, life, q) == Live(lag, At(lag, first, life, p), life[p..q])
  {
    assert life[..q] == life[..p] + life[p..q];
    LiveInParts(lag, first, life[..p], life[p..q]);
  }

  // A call for freshness from its clock reading at `p` to its answer at `q`.
  predicate CallAt(lag: nat, first: Station, life: seq<Turn>, p: nat, q: nat)
  {
    && p < q <= |life|
    && life[p] == Word(F.ReadNow) && Allowed(lag, At(lag, first, life, p), life[p])
    && Word(F.Leave) !in life[p..q]
    && var v := At(lag, first, life, q).words;
       v.reader.Done? && F.CallShort(v, v.reader)
  }

  lemma CallsAreCalls(lag: nat, first: Station, life: seq<Turn>, p: nat, q: nat)
    requires StationOk(lag, first) && CallAt(lag, first, life, p, q)
    ensures C.Call(lag, At(lag, first, life, p).words, At(lag, first, life, q).words)
  {
    hide T.Invariant, T.Do, T.Enabled, F.Do, F.Enabled, Tied, F.WriterShape, Live, C.Within, C.Latest, C.TagsBehind;
    hide F.EpochsOk, F.Sorted, F.CellOk, F.WriterOk, F.ReaderOk, F.CallShort;
    var st := At(lag, first, life, p);
    LiveOk(lag, first, life[..p]);
    LiveOk(lag, first, life[..q]);
    var s1 := Turned(lag, st, life[p]);
    TurnOk(lag, st, life[p]);
    Between(lag, first, life, p, q);
    FirstTurn(lag, st, life[p..q]);
    assert life[p..q][1..] == life[p + 1..q];
    LiveIsWordRun(lag, s1, life[p + 1..q]);
    C.CallBegins(lag, st.words);
    assert F.Leave !in WordsOf(lag, s1, life[p + 1..q]) by {
      assert forall t :: t in life[p + 1..q] ==> t in life[p..q];
    }
    C.RunWithin(lag, st.words, s1.words, WordsOf(lag, s1, life[p + 1..q]));
  }

  lemma FirstTurn(lag: nat, st: Station, turns: seq<Turn>)
    requires turns != [] && Allowed(lag, st, turns[0])
    ensures Live(lag, st, turns) == Live(lag, Turned(lag, st, turns[0]), turns[1..])
  {
  }
}
