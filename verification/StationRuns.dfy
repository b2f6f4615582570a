// A run of the station in which a receiver that delivers everything reads as missing.
module StationRuns {
  import opened Words
  import opened RtcmScan
  import opened FrameRing
  import opened Station
  import T = TxRuns
  import F = MsgFreshness
  import C = FreshCalls

  const LAG: nat := 60_000
  const ORIGIN: Station := PowerOn(1)

  // No answer was taken since turn `p`.
  predicate Reached(p: nat, turns: seq<Turn>, st: Station)
  {
    p <= |turns| && Live(LAG, ORIGIN, turns) == st && Word(F.Leave) !in turns[p..]
  }

  lemma Go(p: nat, turns: seq<Turn>, st: Station, t: Turn) returns (more: seq<Turn>, v: Station)
    requires Reached(p, turns, st) && Allowed(LAG, st, t) && t != Word(F.Leave)
    ensures Reached(p, more, v) && more == turns + [t] && v == Turned(LAG, st, t)
  {
    hide Allowed, Turned;
    more, v := turns + [t], Turned(LAG, st, t);
    OneTurn(turns, st, t);
    assert more[p..] == turns[p..] + [t];
  }

  lemma OneTurn(turns: seq<Turn>, st: Station, t: Turn)
    requires Live(LAG, ORIGIN, turns) == st && Allowed(LAG, st, t)
    ensures Live(LAG, ORIGIN, turns + [t]) == Turned(LAG, st, t)
  {
    hide Allowed, Turned;
    LiveInParts(LAG, ORIGIN, turns, [t]);
    FirstTurn(LAG, st, [t]);
    assert Live(LAG, Turned(LAG, st, t), []) == Turned(LAG, st, t);
    assert [t][1..] == [];
  }

  // Whole frames behind whole frames come out as those frames.
  lemma ScanWhole(fed: seq<Byte>, frames: seq<seq<Byte>>)
    requires Scan(fed).rest == [] && forall f :: f in frames ==> IsFrame(f)
    ensures Scan(fed + Flatten(frames)).frames == Scan(fed).frames + frames
    ensures Scan(fed + Flatten(frames)).rest == []
  {
    hide Scan, IsFrame, Flatten;
    var chunk := Flatten(frames);
    ScanAppend(fed, chunk);
    assert Scan(fed).rest + chunk == chunk;
    CleanFrames(frames, []);
    ScanWait([]);
    assert chunk + [] == chunk;
    assert frames + [] == frames;
  }

  lemma IngestWhole(w: T.World, frames: seq<seq<Byte>>, now: nat)
    requires w.outbox == [] && Scan(w.fed).rest == [] && forall f :: f in frames ==> IsFrame(f)
    ensures var v := T.Do(w, T.Ingest(Flatten(frames), now, false));
            && v == w.(fed := w.fed + Flatten(frames), outbox := T.Entries(frames, now))
            && Scan(v.fed).rest == []
  {
    hide Scan, IsFrame, Flatten;
    ScanWhole(w.fed, frames);
    var before, all := Scan(w.fed).frames, Scan(w.fed + Flatten(frames)).frames;
    assert all[|before|..] == frames;
  }

  lemma StampAndPush(p: nat, turns: seq<Turn>, st: Station, f: seq<Byte>, i: nat) returns (more: seq<Turn>, v: Station)
    requires Reached(p, turns, st) && !st.stamped && st.words.writer.Ingesting? && F.Shape(st.words)
    requires IsFrame(f) && F.IsType(f, i) && i < |F.REQUIRED|
    requires st.tx.outbox != [] && st.tx.outbox[0] == Entry(f, st.words.writer.now)
    requires st.words.clock <= st.words.writer.now + LAG && |st.tx.hist| + 1 < UINT32
    ensures Reached(p, more, v) && turns <= more
    ensures var w, now := st.words, st.words.writer.now;
            v == Station(st.tx.(outbox := st.tx.outbox[1..], hist := st.tx.hist + [Entry(f, now)]),
                         w.(cells := w.cells[i := F.Cell(now, |w.frames|, w.epoch, |w.frames|)],
                            frames := w.frames + [F.Stamped(f, i, now)]),
                         false)
  {
    hide IsFrame, F.IsType, RequiredIndex, Reached;
    more, v := Go(p, turns, st, Word(F.StoreTime(f, i)));
    more, v := Go(p, more, v, Word(F.ReadEpochWord));
    more, v := Go(p, more, v, Word(F.StoreTag));
    more, v := Go(p, more, v, Data(T.Push));
  }

  lemma ReadOne(p: nat, turns: seq<Turn>, st: Station) returns (more: seq<Turn>, v: Station)
    requires Reached(p, turns, st) && F.WriterShape(st.words)
    requires st.words.reader.Sampling? && |st.words.reader.seen| < |F.REQUIRED|
    ensures Reached(p, more, v) && turns <= more
    ensures var w, r := st.words, st.words.reader;
            var c := w.cells[|r.seen|];
            var seen := r.seen + [F.Sample(c.at, c.id, c.tag, c.tagId)];
            v == st.(words := w.(reader := F.Sampling(r.now, r.epoch, r.since, seen)))
  {
    hide Reached;
    more, v := Go(p, turns, st, Word(F.ReadTime));
    more, v := Go(p, more, v, Word(F.ReadTag));
  }

  function Frame(i: nat): seq<Byte>
    requires i < |F.REQUIRED|
  {
    F.FrameOfType(i)
  }

  // One frame of every type, received at one time, and the words that they leave.
  function StampsAt(at: nat): seq<F.Stamped>
  {
    [F.Stamped(Frame(0), 0, at), F.Stamped(Frame(1), 1, at), F.Stamped(Frame(2), 2, at), F.Stamped(Frame(3), 3, at)]
  }

  function EntriesAt(at: nat): seq<Entry>
  {
    [Entry(Frame(0), at), Entry(Frame(1), at), Entry(Frame(2), at), Entry(Frame(3), at)]
  }

  function CellsAt(at: nat, n: nat): seq<F.Cell>
  {
    [F.Cell(at, n, 1, n), F.Cell(at, n + 1, 1, n + 1), F.Cell(at, n + 2, 1, n + 2), F.Cell(at, n + 3, 1, n + 3)]
  }

  // The station between two chunks and two calls, with nothing but whole frames behind it and nobody
  // connected.
  predicate AtRest(st: Station)
  {
    && !st.stamped && st.tx == ORIGIN.tx.(fed := st.tx.fed, hist := st.tx.hist) && Scan(st.tx.fed).rest == []
    && st.words == F.Start().(clock := st.words.clock, cells := st.words.cells, frames := st.words.frames)
    && |st.words.cells| == |F.REQUIRED| && |st.tx.hist| < 1_000_000
  }

  lemma OriginAtRest()
    ensures Reached(0, [], ORIGIN) && AtRest(ORIGIN)
  {
    ScanWait([]);
  }

  // One chunk with a frame of every type.
  lemma HearAll(p: nat, turns: seq<Turn>, st: Station) returns (more: seq<Turn>, v: Station)
    requires Reached(p, turns, st) && AtRest(st) && |st.tx.hist| < 900_000
    ensures Reached(p, more, v) && AtRest(v) && turns <= more && |v.tx.hist| == |st.tx.hist| + 4
    ensures var at, n := st.words.clock, |st.words.frames|;
            v.words == st.words.(cells := CellsAt(at, n), frames := st.words.frames + StampsAt(at))
  {
    hide Scan, IsFrame, F.IsType, RequiredIndex, Reached, F.FrameOfType;
    var at := st.words.clock;
    more, v := Go(p, turns, st, Word(F.BeginIngest));
    var frames := [Frame(0), Frame(1), Frame(2), Frame(3)];
    IngestWhole(v.tx, frames, at);
    more, v := Go(p, more, v, Data(T.Ingest(Flatten(frames), at, false)));
    assert v.tx.outbox == EntriesAt(at);
    more, v := StampAndPush(p, more, v, Frame(0), 0);
    assert v.tx.outbox == EntriesAt(at)[1..];
    more, v := StampAndPush(p, more, v, Frame(1), 1);
    assert v.tx.outbox == EntriesAt(at)[2..];
    more, v := StampAndPush(p, more, v, Frame(2), 2);
    assert v.tx.outbox == EntriesAt(at)[3..];
    more, v := StampAndPush(p, more, v, Frame(3), 3);
    assert v.words.cells == CellsAt(at, |st.words.frames|);
    assert v.words.frames == st.words.frames + StampsAt(at);
    more, v := Go(p, more, v, Word(F.EndIngest));
  }

  // Every type was heard just now.
  predicate JustHeard(w: F.World)
  {
    var n := |w.frames| - 4;
    && n >= 0 && w.frames[n..] == StampsAt(w.clock) && w.cells == CellsAt(w.clock, n)
    && w.epoch == 1 && w.starts == [0, 0] && w.started == 0 && 0 < w.clock < F.HALF - 30000
  }

  // Time goes by, and then every type is heard.
  lemma WaitAndHear(turns: seq<Turn>, st: Station, ms: nat) returns (more: seq<Turn>, v: Station)
    requires Reached(|turns|, turns, st) && AtRest(st) && |st.tx.hist| < 900_000
    requires 0 < st.words.clock + ms < F.HALF - 30000
    ensures Reached(|more|, more, v) && AtRest(v) && turns <= more && |v.tx.hist| == |st.tx.hist| + 4
    ensures JustHeard(v.words) && v.words.clock == st.words.clock + ms
  {
    hide Scan, Reached, F.FrameOfType;
    more, v := Go(|turns|, turns, st, Word(F.Tick(ms)));
    more, v := HearAll(|turns|, more, v);
    FromHere(|turns|, more, v);
  }

  lemma FromHere(p: nat, turns: seq<Turn>, st: Station)
    requires Reached(p, turns, st)
    ensures Reached(|turns|, turns, st)
  {
  }

  lemma JustHeardIsHeard(w: F.World)
    requires JustHeard(w)
    ensures C.HeardBefore(w)
    ensures forall i :: 0 <= i < |F.REQUIRED| ==> w.cells[i].tag == w.epoch
  {
    hide IsFrame, F.IsType, F.FrameOfType;
    forall i | 0 <= i < |F.REQUIRED| ensures F.Heard(w, i, w.starts[w.epoch], w.clock) {
      var k := |w.frames| - 4 + i;
      assert w.frames[k] == w.frames[|w.frames| - 4..][i] == F.Stamped(Frame(i), i, w.clock);
      assert F.HeardAs(w.frames[k], i, w.starts[w.epoch], w.clock);
    }
  }

  function Sampled(c: F.Cell): F.Sample { F.Sample(c.at, c.id, c.tag, c.tagId) }

  // The call from its clock reading to its first sample.
  lemma BeginCall(turns: seq<Turn>, st: Station) returns (more: seq<Turn>, v: Station)
    requires Reached(|turns|, turns, st) && AtRest(st)
    ensures Reached(|turns|, more, v) && turns < more && more[|turns|] == Word(F.ReadNow)
    ensures v == st.(words := st.words.(reader := F.Sampling(st.words.clock, 1, 0, [])))
  {
    hide Reached, Scan;
    more, v := Go(|turns|, turns, st, Word(F.ReadNow));
    more, v := Go(|turns|, more, v, Word(F.SnapshotEpoch));
    more, v := Go(|turns|, more, v, Word(F.ReadSince));
  }

  // The rest of a call that nothing comes between.
  lemma FinishCall(p: nat, turns: seq<Turn>, st: Station) returns (more: seq<Turn>, v: Station)
    requires Reached(p, turns, st) && F.WriterShape(st.words)
    requires st.words.reader.Sampling? && st.words.reader.seen == [] && st.words.reader.epoch == st.words.epoch
    ensures Reached(p, more, v) && turns <= more && F.Shape(st.words)
    ensures var r, c := st.words.reader, st.words.cells;
            var seen := [Sampled(c[0]), Sampled(c[1]), Sampled(c[2]), Sampled(c[3])];
            v == st.(words := st.words.(reader := F.Done(r.now, r.epoch, r.since, seen, true)))
  {
    hide Reached;
    more, v := ReadOne(p, turns, st);
    more, v := ReadOne(p, more, v);
    more, v := ReadOne(p, more, v);
    more, v := ReadOne(p, more, v);
    var c := st.words.cells;
    assert v.words.reader.seen == [Sampled(c[0]), Sampled(c[1]), Sampled(c[2]), Sampled(c[3])];
    more, v := Go(p, more, v, Word(F.CheckEpoch));
  }

  lemma EndCall(p: nat, turns: seq<Turn>, st: Station) returns (more: seq<Turn>, v: Station)
    requires Reached(p, turns, st) && F.WriterShape(st.words) && st.words.reader.Done?
    ensures Reached(|more|, more, v) && turns <= more && v == st.(words := st.words.(reader := F.Away))
  {
    more, v := turns + [Word(F.Leave)], Turned(LAG, st, Word(F.Leave));
    OneTurn(turns, st, Word(F.Leave));
  }

  // What was walked through is a call of the life.
  lemma WalkedCall(turns: seq<Turn>, st: Station, more: seq<Turn>, v: Station)
    requires Reached(|turns|, turns, st) && AtRest(st)
    requires Reached(|turns|, more, v) && turns < more && more[|turns|] == Word(F.ReadNow)
    requires v.words.reader.Done? && F.CallShort(v.words, v.words.reader)
    ensures CallAt(LAG, ORIGIN, more, |turns|, |more|)
    ensures At(LAG, ORIGIN, more, |turns|) == st && At(LAG, ORIGIN, more, |more|) == v
  {
    hide Live, Scan;
    assert more[..|turns|] == turns && more[..|more|] == more && more[|turns|..|more|] == more[|turns|..];
  }

  // A call with every type heard and nothing in between answers that all are fresh.
  lemma QuietCall(turns: seq<Turn>, st: Station) returns (more: seq<Turn>, v: Station)
    requires Reached(|turns|, turns, st) && AtRest(st) && JustHeard(st.words)
    ensures CallAt(LAG, ORIGIN, more, |turns|, |more|) && turns < more && Reached(|turns|, more, v)
    ensures At(LAG, ORIGIN, more, |turns|) == st && At(LAG, ORIGIN, more, |more|) == v
    ensures v == st.(words := st.words.(reader := v.words.reader))
    ensures v.words.reader.Done? && |v.words.reader.seen| == |F.REQUIRED| && F.AllFresh(v.words.reader)
  {
    hide Reached, Scan, CallAt, At, Allowed, Turned, F.AllFresh;
    more, v := BeginCall(turns, st);
    more, v := FinishCall(|turns|, more, v);
    WalkedCall(turns, st, more, v);
    QuietVerdict(v.words.reader);
  }

  lemma QuietVerdict(r: F.Reader)
    requires r.Done? && r.coherent && |r.seen| == |F.REQUIRED| && r.epoch == 1 && r.since == 0
    requires 0 < r.now < F.HALF && forall i :: 0 <= i < |r.seen| ==> r.seen[i].at == r.now && r.seen[i].tag == 1
    ensures F.AllFresh(r)
  {
    hide F.Low32;
    F.Low32Near(0);
    F.Low32Near(r.now);
  }

  lemma LateVerdict(r: F.Reader)
    requires r.Done? && r.coherent && |r.seen| == |F.REQUIRED| && r.epoch == 1 && r.since == 0
    requires 0 < r.now < F.HALF - 1 && r.seen[0].at == r.now + 1
    requires forall i :: 0 <= i < |r.seen| ==> r.now <= r.seen[i].at <= r.now + 1 && r.seen[i].tag == 1
    ensures forall i :: 0 <= i < |r.seen| ==> F.StartInReach(r.seen[i].at, r.since)
    ensures !F.AllFresh(r)
  {
    hide F.Low32;
    forall i | 0 <= i < |r.seen| ensures F.StartInReach(r.seen[i].at, r.since) {
      F.Low32Near(r.seen[i].at);
    }
    F.Low32Near(r.now);
    F.Low32Near(r.now + 1);
    F.Low32Near(-1);
    assert !F.Fresh(0, r.now, r.epoch, r.since, r.seen[0]);
  }

  // The next frame of the first type is received and stamped one millisecond later.
  lemma OneMore(p: nat, turns: seq<Turn>, st: Station) returns (more: seq<Turn>, v: Station)
    requires Reached(p, turns, st) && AtRest(st.(words := st.words.(reader := F.Away)))
    ensures Reached(p, more, v) && turns <= more
    ensures var w, at, n := st.words, st.words.clock + 1, |st.words.frames|;
            && |w.cells| == |F.REQUIRED|
            && v.words == w.(clock := at, writer := F.Ingesting(at), cells := w.cells[0 := F.Cell(at, n, 1, n)],
                             frames := w.frames + [F.Stamped(Frame(0), 0, at)])
  {
    hide Scan, IsFrame, F.IsType, RequiredIndex, Reached, F.FrameOfType;
    more, v := Go(p, turns, st, Word(F.Tick(1)));
    more, v := Go(p, more, v, Word(F.BeginIngest));
    IngestWhole(v.tx, [Frame(0)], v.words.clock);
    more, v := Go(p, more, v, Data(T.Ingest(Flatten([Frame(0)]), v.words.clock, false)));
    more, v := StampAndPush(p, more, v, Frame(0), 0);
  }

  // Every type was heard just now and is tagged, no reset is anywhere near, and the call answers that
  // a type is missing: between its clock reading and its first sample that type was heard again.
  lemma LateCall(turns: seq<Turn>, st: Station) returns (more: seq<Turn>, v: Station)
    requires Reached(|turns|, turns, st) && AtRest(st) && JustHeard(st.words)
    ensures CallAt(LAG, ORIGIN, more, |turns|, |more|) && turns < more
    ensures At(LAG, ORIGIN, more, |turns|) == st && At(LAG, ORIGIN, more, |more|) == v
    ensures v.words.starts == [0, 0] && v.words.frames == st.words.frames + [F.Stamped(Frame(0), 0, st.words.clock + 1)]
    ensures var r := v.words.reader;
            && r.Done? && r.coherent && C.SameEpoch(st.words, r) && r.now == st.words.clock
            && |r.seen| == |F.REQUIRED| && r.seen[0].at == r.now + 1
            && (forall i :: 0 <= i < |F.REQUIRED| ==> r.seen[i].tag == r.epoch && F.StartInReach(r.seen[i].at, r.since))
            && !F.AllFresh(r)
  {
    hide Reached, Scan, CallAt, At, Allowed, Turned, F.AllFresh, F.StartInReach;
    more, v := BeginCall(turns, st);
    more, v := OneMore(|turns|, more, v);
    more, v := FinishCall(|turns|, more, v);
    WalkedCall(turns, st, more, v);
    LateVerdict(v.words.reader);
  }

  // So a receiver that delivers everything reads as missing, 100 ms into its epoch.
  lemma LateStampReadsMissing() returns (life: seq<Turn>, p: nat, q: nat)
    ensures CallAt(LAG, ORIGIN, life, p, q)
    ensures var b, v := At(LAG, ORIGIN, life, p).words, At(LAG, ORIGIN, life, q).words;
            && b.clock == 100 && b.epoch < |b.starts| && C.HeardBefore(b) && |b.cells| == |F.REQUIRED|
            && (forall i :: 0 <= i < |F.REQUIRED| ==> b.cells[i].tag == b.epoch)
            && v.reader.Done? && v.reader.coherent && C.SameEpoch(b, v.reader) && |v.reader.seen| == |F.REQUIRED|
            && (forall i :: 0 <= i < |F.REQUIRED| ==>
                  v.reader.seen[i].tag == v.reader.epoch && F.StartInReach(v.reader.seen[i].at, v.reader.since))
            && !F.AllFresh(v.reader)
  {
    hide Reached, Scan, CallAt, At, Allowed, F.AllFresh, F.StartInReach, C.HeardBefore, StampsAt;
    OriginAtRest();
    var st, v;
    life, st := WaitAndHear([], ORIGIN, 100);
    JustHeardIsHeard(st.words);
    p := |life|;
    life, v := LateCall(life, st);
    q := |life|;
  }
}
