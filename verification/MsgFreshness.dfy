// Whether the receiver currently produces its required messages: shared words written by the
// UART task, a reset announced by the GNSS task and a reader that takes no lock. One step is one
// access to one shared word; steps of the three tasks interleave freely.
//
// Clock readings are carried as true times. What the tasks store and compare are their low 32
// bits, and every decision below is taken on those.
module MsgFreshness {
  import opened Words
  import opened RtcmScan

  const HALF: nat := 0x8000_0000

  const REQUIRED: seq<nat> := [1005, 1033, 1077, 1087]
  const BUDGET_MS: seq<nat> := [30000, 30000, 5000, 5000]

  function Low32(t: int): (r: nat)
    ensures r < UINT32
  {
    t % UINT32
  }

  // The signed reading of a 32-bit word.
  function Int32(w: nat): int
    requires w < UINT32
  {
    if w < HALF then w else w - UINT32
  }

  // The message number in the first twelve payload bits.
  function MessageType(frame: seq<Byte>): nat
    requires |frame| >= 6
  {
    var hi: nat := frame[3];
    hi * 16 + frame[4] / 16
  }

  predicate IsType(frame: seq<Byte>, i: nat)
  {
    |frame| >= 6 && i < |REQUIRED| && MessageType(frame) == REQUIRED[i]
  }

  // ------------------------------------------------------------------ tasks

  datatype Stamped = Stamped(frame: seq<Byte>, i: nat, at: nat)

  datatype Writer =
    | Idle
    | Ingesting(now: nat)
    | TimeStored(now: nat, i: nat)
    | EpochRead(now: nat, i: nat, epoch: nat)

  datatype Resetter = Quiet | ClockRead(at: nat) | StartStored | Bumped | NonZero

  // What a reader has seen of one type: the timestamp word and its tag. `id` and `tagId` number
  // the frames they were stored for, -1 for none yet.
  datatype Sample = Sample(at: nat, id: int, tag: nat, tagId: int)

  datatype Reader =
    | Away
    | HasNow(now: nat)
    | HasEpoch(now: nat, epoch: nat)
    | Sampling(now: nat, epoch: nat, since: nat, seen: seq<Sample>)
    | HalfSample(now: nat, epoch: nat, since: nat, seen: seq<Sample>, at: nat, id: int)
    | Done(now: nat, epoch: nat, since: nat, seen: seq<Sample>, coherent: bool)

  datatype Cell = Cell(at: nat, id: int, tag: nat, tagId: int)

  // `frames` are all required frames stamped so far and `starts[e]` the start of epoch `e`.
  datatype World = World(
    clock: nat, cells: seq<Cell>, epoch: nat, started: nat, resetRequested: bool,
    frames: seq<Stamped>, starts: seq<nat>,
    writer: Writer, resetter: Resetter, reader: Reader)

  datatype Step =
    | Tick(ms: nat)
    | BeginIngest | StoreTime(frame: seq<Byte>, i: nat) | ReadEpochWord | StoreTag | EndIngest
    | ReadResetClock | StoreStart | Bump | SkipZero | RequestReset
    | ReadNow | SnapshotEpoch | ReadSince | ReadTime | ReadTag | CheckEpoch | Leave

  // `lag` bounds the time a frame spends between the clock reading of its chunk and its tag.
  predicate Enabled(lag: nat, w: World, s: Step)
  {
    match s
    case Tick(_) => true
    case BeginIngest => w.writer.Idle?
    case StoreTime(frame, i) => w.writer.Ingesting? && IsFrame(frame) && IsType(frame, i)
    case ReadEpochWord => w.writer.TimeStored? && w.clock <= w.writer.now + lag
    case StoreTag => w.writer.EpochRead?
    case EndIngest => w.writer.Ingesting?
    case ReadResetClock => w.resetter.Quiet?
    case StoreStart => w.resetter.ClockRead?
    case Bump => w.resetter.StartStored? && w.epoch + 1 < UINT32
    case SkipZero => w.resetter.Bumped?
    case RequestReset => w.resetter.NonZero?
    case ReadNow => w.reader.Away?
    case SnapshotEpoch => w.reader.HasNow?
    case ReadSince => w.reader.HasEpoch?
    case ReadTime => w.reader.Sampling? && |w.reader.seen| < |REQUIRED|
    case ReadTag => w.reader.HalfSample? && |w.reader.seen| < |REQUIRED|
    case CheckEpoch => w.reader.Sampling? && |w.reader.seen| == |REQUIRED|
    case Leave => w.reader.Done?
  }

  predicate Shape(w: World) { |w.cells| == |REQUIRED| }

  predicate WriterShape(w: World)
  {
    Shape(w)
    && (w.writer.TimeStored? ==> w.writer.i < |REQUIRED|)
    && (w.writer.EpochRead? ==> w.writer.i < |REQUIRED|)
  }

  function WriterStep(lag: nat, w: World, s: Step): (v: World)
    requires WriterShape(w) && Enabled(lag, w, s)
    requires s.BeginIngest? || s.StoreTime? || s.ReadEpochWord? || s.StoreTag? || s.EndIngest?
  {
    match s
    case BeginIngest => w.(writer := Ingesting(w.clock), resetRequested := false)
    case StoreTime(frame, i) =>
      w.(cells := w.cells[i := w.cells[i].(at := w.writer.now, id := |w.frames|)],
         frames := w.frames + [Stamped(frame, i, w.writer.now)],
         writer := TimeStored(w.writer.now, i))
    case ReadEpochWord => w.(writer := EpochRead(w.writer.now, w.writer.i, w.epoch))
    case StoreTag =>
      var i := w.writer.i;
      w.(cells := w.cells[i := w.cells[i].(tag := w.writer.epoch, tagId := w.cells[i].id)],
         writer := Ingesting(w.writer.now))
    case EndIngest => w.(writer := Idle)
  }

  function ResetterStep(lag: nat, w: World, s: Step): (v: World)
    requires Enabled(lag, w, s)
    requires s.ReadResetClock? || s.StoreStart? || s.Bump? || s.SkipZero? || s.RequestReset?
  {
    match s
    case ReadResetClock => w.(resetter := ClockRead(w.clock))
    case StoreStart => w.(started := w.resetter.at, resetter := StartStored)
    case Bump => w.(epoch := (w.epoch + 1) % UINT32, starts := w.starts + [w.started], resetter := Bumped)
    case SkipZero => w.(epoch := if w.epoch == 0 then 1 else w.epoch, resetter := NonZero)
    case RequestReset => w.(resetRequested := true, resetter := Quiet)
  }

  function ReaderStep(lag: nat, w: World, s: Step): (v: World)
    requires Shape(w) && Enabled(lag, w, s)
    requires s.ReadNow? || s.SnapshotEpoch? || s.ReadSince? || s.ReadTime? || s.ReadTag? || s.CheckEpoch? || s.Leave?
  {
    var r := w.reader;
    match s
    case ReadNow => w.(reader := HasNow(w.clock))
    case SnapshotEpoch => w.(reader := HasEpoch(r.now, w.epoch))
    case ReadSince => w.(reader := Sampling(r.now, r.epoch, w.started, []))
    case ReadTime =>
      var c := w.cells[|r.seen|];
      w.(reader := HalfSample(r.now, r.epoch, r.since, r.seen, c.at, c.id))
    case ReadTag =>
      var c := w.cells[|r.seen|];
      w.(reader := Sampling(r.now, r.epoch, r.since, r.seen + [Sample(r.at, r.id, c.tag, c.tagId)]))
    case CheckEpoch => w.(reader := Done(r.now, r.epoch, r.since, r.seen, w.epoch == r.epoch))
    case Leave => w.(reader := Away)
  }

  function Do(lag: nat, w: World, s: Step): World
    requires WriterShape(w) && Enabled(lag, w, s)
  {
    match s
    case Tick(ms) => w.(clock := w.clock + ms)
    case BeginIngest => WriterStep(lag, w, s)
    case StoreTime(_, _) => WriterStep(lag, w, s)
    case ReadEpochWord => WriterStep(lag, w, s)
    case StoreTag => WriterStep(lag, w, s)
    case EndIngest => WriterStep(lag, w, s)
    case ReadResetClock => ResetterStep(lag, w, s)
    case StoreStart => ResetterStep(lag, w, s)
    case Bump => ResetterStep(lag, w, s)
    case SkipZero => ResetterStep(lag, w, s)
    case RequestReset => ResetterStep(lag, w, s)
    case _ => ReaderStep(lag, w, s)
  }

  function Start(): World
  {
    World(0, seq(|REQUIRED|, i => Cell(0, -1, 0, -1)), 1, 0, false, [], [0, 0], Idle, Quiet, Away)
  }

  // ---------------------------------------------------------------- verdict

  predicate Fresh(i: nat, now: nat, epoch: nat, since: nat, s: Sample)
    requires i < |REQUIRED|
  {
    && s.tag == epoch
    && Int32(Low32(Low32(s.at) - Low32(since))) > 0
    && Low32(Low32(now) - Low32(s.at)) <= BUDGET_MS[i]
  }

  predicate AllFresh(r: Reader)
    requires r.Done? && |r.seen| == |REQUIRED|
  {
    r.coherent && forall i :: 0 <= i < |REQUIRED| ==> Fresh(i, r.now, r.epoch, r.since, r.seen[i])
  }

  // -------------------------------------------------------------- invariant

  predicate Sorted(w: World)
  {
    && (forall a, b :: 0 <= a <= b < |w.frames| ==> w.frames[a].at <= w.frames[b].at)
    && (forall a :: 0 <= a < |w.frames| ==> w.frames[a].at <= w.clock && IsFrame(w.frames[a].frame)
                                            && IsType(w.frames[a].frame, w.frames[a].i))
  }

  predicate EpochsOk(w: World)
  {
    && |w.starts| == w.epoch + 1 && 1 <= w.epoch < UINT32
    && w.started <= w.clock
    && (forall e :: 0 <= e <= w.epoch ==> w.starts[e] <= w.started)
    && (w.resetter.ClockRead? ==> w.started <= w.resetter.at <= w.clock)
  }

  // A timestamp word and a tag word of type `i` with the frames they came from.
  predicate TimeOk(w: World, i: nat, at: nat, id: int)
  {
    && -1 <= id < |w.frames|
    && (if id < 0 then at == 0 else w.frames[id].i == i && w.frames[id].at == at)
  }

  predicate TagOk(lag: nat, w: World, i: nat, tag: nat, tagId: int)
    requires |w.starts| == w.epoch + 1
  {
    && tag <= w.epoch && -1 <= tagId < |w.frames|
    && (if tagId < 0 then tag == 0
        else tag >= 1 && w.frames[tagId].i == i && w.starts[tag] <= w.frames[tagId].at + lag)
  }

  predicate CellOk(lag: nat, w: World, i: nat, c: Cell)
    requires |w.starts| == w.epoch + 1
  {
    TimeOk(w, i, c.at, c.id) && TagOk(lag, w, i, c.tag, c.tagId)
  }

  predicate WriterOk(lag: nat, w: World)
    requires WriterShape(w) && |w.starts| == w.epoch + 1
  {
    var wr := w.writer;
    && (!wr.Idle? ==> wr.now <= w.clock && (w.frames != [] ==> w.frames[|w.frames| - 1].at <= wr.now))
    && (wr.TimeStored? ==> w.frames != [] && w.cells[wr.i].id == |w.frames| - 1 && w.cells[wr.i].at == wr.now)
    && (wr.EpochRead? ==> w.frames != [] && w.cells[wr.i].id == |w.frames| - 1 && w.cells[wr.i].at == wr.now
                          && 1 <= wr.epoch <= w.epoch && w.starts[wr.epoch] <= wr.now + lag)
  }

  predicate SampleOk(lag: nat, w: World, i: nat, s: Sample)
    requires |w.starts| == w.epoch + 1
  {
    TimeOk(w, i, s.at, s.id) && TagOk(lag, w, i, s.tag, s.tagId)
  }

  predicate ReaderOk(lag: nat, w: World)
    requires |w.starts| == w.epoch + 1
  {
    var r := w.reader;
    && (!r.Away? ==> r.now <= w.clock)
    && (!r.Away? && !r.HasNow? ==> 1 <= r.epoch <= w.epoch)
    && (r.Sampling? || r.HalfSample? || r.Done? ==>
          && w.starts[r.epoch] <= r.since <= w.started
          && |r.seen| <= |REQUIRED|
          && forall i :: 0 <= i < |r.seen| ==> SampleOk(lag, w, i, r.seen[i]))
    && (r.HalfSample? ==> |r.seen| < |REQUIRED| && TimeOk(w, |r.seen|, r.at, r.id))
    && (r.Done? ==> |r.seen| == |REQUIRED|)
  }

  predicate Inv(lag: nat, w: World)
  {
    && WriterShape(w) && EpochsOk(w) && Sorted(w)
    && (forall i :: 0 <= i < |w.cells| ==> CellOk(lag, w, i, w.cells[i]))
    && WriterOk(lag, w) && ReaderOk(lag, w)
  }

  lemma StartInv(lag: nat)
    ensures Inv(lag, Start())
  {
  }

  lemma TickInv(lag: nat, w: World, ms: nat)
    requires Inv(lag, w)
    ensures Inv(lag, Do(lag, w, Tick(ms)))
  {
    hide IsFrame, IsType;
    var v := Do(lag, w, Tick(ms));
    assert forall i :: 0 <= i < |w.cells| ==> CellOk(lag, w, i, w.cells[i]) ==> CellOk(lag, v, i, v.cells[i]);
  }

  // Growing histories leave what is known about timestamps and tags alone.
  predicate Grows(w: World, v: World)
  {
    && w.frames <= v.frames && w.starts <= v.starts && w.epoch <= v.epoch
    && |w.starts| == w.epoch + 1 && |v.starts| == v.epoch + 1
  }

  lemma SamplesGrow(lag: nat, w: World, v: World, i: nat, at: nat, id: int, tag: nat, tagId: int)
    requires Grows(w, v)
    ensures TimeOk(w, i, at, id) ==> TimeOk(v, i, at, id)
    ensures TagOk(lag, w, i, tag, tagId) ==> TagOk(lag, v, i, tag, tagId)
  {
  }

  lemma ReaderGrows(lag: nat, w: World, v: World)
    requires Grows(w, v) && ReaderOk(lag, w) && w.started <= v.started && w.clock <= v.clock
    requires v.reader == w.reader
    ensures ReaderOk(lag, v)
  {
    hide TimeOk, TagOk;
    var r := w.reader;
    if r.Sampling? || r.HalfSample? || r.Done? {
      forall i | 0 <= i < |r.seen| ensures SampleOk(lag, v, i, r.seen[i]) {
        assert SampleOk(lag, w, i, r.seen[i]);
        SamplesGrow(lag, w, v, i, r.seen[i].at, r.seen[i].id, r.seen[i].tag, r.seen[i].tagId);
      }
    }
    if r.HalfSample? {
      SamplesGrow(lag, w, v, |r.seen|, r.at, r.id, 0, -1);
    }
  }

  lemma CellsGrow(lag: nat, w: World, v: World, i: nat)
    requires Grows(w, v) && i < |w.cells| && i < |v.cells| && v.cells[i] == w.cells[i]
    requires CellOk(lag, w, i, w.cells[i])
    ensures CellOk(lag, v, i, v.cells[i])
  {
    SamplesGrow(lag, w, v, i, w.cells[i].at, w.cells[i].id, w.cells[i].tag, w.cells[i].tagId);
  }

  lemma SnapshotInv(lag: nat, w: World, s: Step)
    requires Inv(lag, w) && Enabled(lag, w, s)
    requires s.ReadNow? || s.SnapshotEpoch? || s.ReadSince? || s.CheckEpoch? || s.Leave?
    ensures Inv(lag, Do(lag, w, s))
  {
    hide IsFrame, IsType, TimeOk, TagOk, CellOk;
    var v := Do(lag, w, s);
    assert Grows(w, v);
    forall i | 0 <= i < |v.cells| ensures CellOk(lag, v, i, v.cells[i]) {
      CellsGrow(lag, w, v, i);
    }
    var r := w.reader;
    if s.CheckEpoch? {
      forall i | 0 <= i < |r.seen| ensures SampleOk(lag, v, i, r.seen[i]) {
        SamplesGrow(lag, w, v, i, r.seen[i].at, r.seen[i].id, r.seen[i].tag, r.seen[i].tagId);
      }
    }
  }

  lemma SampleInv(lag: nat, w: World, s: Step)
    requires Inv(lag, w) && Enabled(lag, w, s)
    requires s.ReadTime? || s.ReadTag?
    ensures Inv(lag, Do(lag, w, s))
  {
    hide IsFrame, IsType, TimeOk, TagOk;
    var v := Do(lag, w, s);
    assert Grows(w, v);
    var r, n := w.reader, |w.reader.seen|;
    var c := w.cells[n];
    assert CellOk(lag, w, n, c);
    SamplesGrow(lag, w, v, n, c.at, c.id, c.tag, c.tagId);
    if s.ReadTag? {
      SamplesGrow(lag, w, v, n, r.at, r.id, c.tag, c.tagId);
    }
    forall i | 0 <= i < n ensures SampleOk(lag, v, i, r.seen[i]) {
      SamplesGrow(lag, w, v, i, r.seen[i].at, r.seen[i].id, r.seen[i].tag, r.seen[i].tagId);
    }
    forall i | 0 <= i < |v.cells| ensures CellOk(lag, v, i, v.cells[i]) {
      CellsGrow(lag, w, v, i);
    }
  }

  lemma ResetterInv(lag: nat, w: World, s: Step)
    requires Inv(lag, w) && Enabled(lag, w, s)
    requires s.ReadResetClock? || s.StoreStart? || s.Bump? || s.SkipZero? || s.RequestReset?
    ensures Inv(lag, Do(lag, w, s))
  {
    hide IsFrame, IsType, TimeOk, TagOk, ReaderOk, CellOk;
    var v := Do(lag, w, s);
    assert Grows(w, v);
    ReaderGrows(lag, w, v);
    forall i | 0 <= i < |v.cells| ensures CellOk(lag, v, i, v.cells[i]) {
      CellsGrow(lag, w, v, i);
    }
  }

  lemma StoredType(frame: seq<Byte>, i: nat)
    requires IsType(frame, i)
    ensures i < |REQUIRED|
  {
  }

  lemma StoreTimeInv(lag: nat, w: World, frame: seq<Byte>, i: nat)
    requires Inv(lag, w) && Enabled(lag, w, StoreTime(frame, i))
    ensures Inv(lag, Do(lag, w, StoreTime(frame, i)))
  {
    hide IsFrame, IsType, ReaderOk, TagOk;
    var v := Do(lag, w, StoreTime(frame, i));
    assert i < |REQUIRED| by { StoredType(frame, i); }
    assert Grows(w, v);
    ReaderGrows(lag, w, v);
    forall k | 0 <= k < |w.cells| ensures CellOk(lag, v, k, v.cells[k]) {
      assert CellOk(lag, w, k, w.cells[k]);
      SamplesGrow(lag, w, v, k, w.cells[k].at, w.cells[k].id, w.cells[k].tag, w.cells[k].tagId);
    }
  }

  lemma StoreTagInv(lag: nat, w: World)
    requires Inv(lag, w) && Enabled(lag, w, StoreTag)
    ensures Inv(lag, Do(lag, w, StoreTag))
  {
    hide IsFrame, IsType, ReaderOk;
    var v := Do(lag, w, StoreTag);
    assert Grows(w, v);
    ReaderGrows(lag, w, v);
    forall k | 0 <= k < |v.cells| ensures CellOk(lag, v, k, v.cells[k]) {
      assert CellOk(lag, w, k, w.cells[k]);
    }
  }

  lemma WriterInv(lag: nat, w: World, s: Step)
    requires Inv(lag, w) && Enabled(lag, w, s)
    requires s.BeginIngest? || s.ReadEpochWord? || s.EndIngest?
    ensures Inv(lag, Do(lag, w, s))
  {
    hide IsFrame, IsType, TimeOk, TagOk, ReaderOk, CellOk;
    var v := Do(lag, w, s);
    assert Grows(w, v);
    ReaderGrows(lag, w, v);
    forall i | 0 <= i < |v.cells| ensures CellOk(lag, v, i, v.cells[i]) {
      CellsGrow(lag, w, v, i);
    }
  }

  lemma StepInv(lag: nat, w: World, s: Step)
    requires Inv(lag, w) && Enabled(lag, w, s)
    ensures Inv(lag, Do(lag, w, s))
  {
    hide Inv, Do, Enabled;
    match s
    case Tick(ms) => TickInv(lag, w, ms);
    case StoreTime(frame, i) => StoreTimeInv(lag, w, frame, i);
    case StoreTag => StoreTagInv(lag, w);
    case BeginIngest => WriterInv(lag, w, s);
    case ReadEpochWord => WriterInv(lag, w, s);
    case EndIngest => WriterInv(lag, w, s);
    case ReadResetClock => ResetterInv(lag, w, s);
    case StoreStart => ResetterInv(lag, w, s);
    case Bump => ResetterInv(lag, w, s);
    case SkipZero => ResetterInv(lag, w, s);
    case RequestReset => ResetterInv(lag, w, s);
    case ReadTime => SampleInv(lag, w, s);
    case ReadTag => SampleInv(lag, w, s);
    case _ => SnapshotInv(lag, w, s);
  }

  // A run of the three tasks: steps that are not enabled do not happen.
  function Run(lag: nat, w: World, steps: seq<Step>): World
    requires Inv(lag, w)
    decreases |steps|
  {
    if steps == [] then w
    else if Enabled(lag, w, steps[0]) then
      StepInv(lag, w, steps[0]);
      Run(lag, Do(lag, w, steps[0]), steps[1..])
    else Run(lag, w, steps[1..])
  }

  lemma {:induction false} RunInv(lag: nat, w: World, steps: seq<Step>)
    requires Inv(lag, w)
    ensures Inv(lag, Run(lag, w, steps))
    decreases |steps|
  {
    hide EpochsOk, Sorted, CellOk, WriterOk, ReaderOk, Do, Enabled;
    if steps != [] {
      if Enabled(lag, w, steps[0]) {
        StepInv(lag, w, steps[0]);
        RunInv(lag, Do(lag, w, steps[0]), steps[1..]);
      } else {
        RunInv(lag, w, steps[1..]);
      }
    }
  }

  // ------------------------------------------------------------ the meaning

  lemma ModDifference(a: nat, b: nat)
    ensures Low32(Low32(a) - Low32(b)) == Low32(a - b)
  {
    var qa, qb := a / UINT32, b / UINT32;
    assert Low32(a) - Low32(b) == (a - b) + (qb - qa) * UINT32;
    ModShift(a - b, qb - qa);
  }

  lemma ModShift(x: int, k: int)
    ensures Low32(x + k * UINT32) == Low32(x)
  {
  }

  // Within one turn of the counter its words can be taken apart.
  lemma Low32Near(d: int)
    requires 0 <= d + UINT32 && d < UINT32
    ensures Low32(d) == if d < 0 then d + UINT32 else d
  {
    if d < 0 {
      ModShift(d, 1);
    }
  }

  // The timestamp word was read before a newer frame of its type stored the tag read with it.
  predicate Torn(s: Sample) { s.id < s.tagId }

  // Some frame of type `i`, received after the start of the epoch and within its budget.
  ghost predicate Heard(w: World, i: nat, start: nat, now: nat)
    requires i < |REQUIRED|
  {
    exists k :: 0 <= k < |w.frames| && HeardAs(w.frames[k], i, start, now)
  }

  predicate HeardAs(f: Stamped, i: nat, start: nat, now: nat)
    requires i < |REQUIRED|
  {
    && IsFrame(f.frame) && IsType(f.frame, i)
    && start < f.at <= now && now - f.at <= BUDGET_MS[i]
  }

  // The distance from the start of the epoch to a sample, as a signed word, is positive: the sample
  // lies less than half a turn of the counter behind the start, or a whole number of turns more.
  predicate StartInReach(at: nat, since: nat) { 0 < Low32(at - since) < HALF }

  // One call is shorter than half a turn less the longest budget.
  predicate CallShort(w: World, r: Reader)
    requires !r.Away?
  {
    w.clock < r.now + HALF - 30000
  }

  // The tests on words against the times themselves, for a sample less than one turn old.
  lemma WordsDecide(at: nat, since: nat, now: nat, clock: nat, budget: nat)
    requires at <= clock && since <= clock && now <= clock < now + HALF - 30000
    requires now < at + UINT32 && budget <= 30000
    ensures (Int32(Low32(Low32(at) - Low32(since))) > 0 && Low32(Low32(now) - Low32(at)) <= budget)
       <==> (since < at <= now && now - at <= budget && StartInReach(at, since))
  {
    ModDifference(at, since);
    ModDifference(now, at);
    Low32Near(now - at);
    if at <= since && since - at < UINT32 {
      Low32Near(at - since);
    }
  }

  // A sample less than one turn of the counter old reads as fresh exactly if it is tagged with the
  // snapshot epoch, its timestamp is that of a frame received after the start read for it and within
  // the budget of its type, and the start is still in reach.
  lemma FreshSample(lag: nat, w: World, i: nat)
    requires Inv(lag, w) && w.reader.Done? && i < |REQUIRED| && CallShort(w, w.reader)
    requires w.reader.now < w.reader.seen[i].at + UINT32
    ensures var r, s := w.reader, w.reader.seen[i];
            s.id < |w.frames|
            && (Fresh(i, r.now, r.epoch, r.since, s)
                <==> (s.tag == r.epoch && s.id >= 0 && HeardAs(w.frames[s.id], i, r.since, r.now)
                      && StartInReach(s.at, r.since)))
  {
    hide IsFrame, IsType, Low32, Int32, TagOk, CellOk, WriterOk, StartInReach;
    var r := w.reader;
    var s := r.seen[i];
    assert SampleOk(lag, w, i, s);
    assert s.id >= 0 ==> w.frames[s.id].at <= w.clock;
    WordsDecide(s.at, r.since, r.now, w.clock, BUDGET_MS[i]);
  }

  // What a fresh verdict is worth: it is genuine exactly if the timestamp that was read is less than
  // one turn of the counter, 49 days, old.
  lemma FreshIsGenuineIff(lag: nat, w: World, i: nat)
    requires Inv(lag, w) && w.reader.Done? && i < |REQUIRED| && CallShort(w, w.reader)
    requires var r := w.reader; Fresh(i, r.now, r.epoch, r.since, r.seen[i])
    ensures var r, s := w.reader, w.reader.seen[i];
            s.id < |w.frames|
            && ((s.id >= 0 && HeardAs(w.frames[s.id], i, r.since, r.now)) <==> r.now < s.at + UINT32)
  {
    hide IsFrame, IsType, Low32, Int32, TagOk, CellOk, WriterOk, Fresh;
    var r := w.reader;
    assert SampleOk(lag, w, i, r.seen[i]);
    if r.now < r.seen[i].at + UINT32 {
      FreshSample(lag, w, i);
    }
  }

  // What the tag is for: unless timestamp and tag come from different frames, a sample of the
  // snapshot epoch is no older than the epoch, but for the time a frame takes to be tagged; so only
  // an epoch of 49 days can hold a silence of 49 days.
  lemma TagBoundsSilence(lag: nat, w: World, i: nat)
    requires Inv(lag, w) && w.reader.Done? && i < |REQUIRED|
    requires var r := w.reader; r.seen[i].tag == r.epoch && !Torn(r.seen[i])
    ensures w.starts[w.reader.epoch] <= w.reader.seen[i].at + lag
    ensures w.reader.now + lag < w.starts[w.reader.epoch] + UINT32 ==> w.reader.now < w.reader.seen[i].at + UINT32
  {
    hide IsFrame, IsType;
    var s := w.reader.seen[i];
    assert SampleOk(lag, w, i, s);
    assert s.tagId >= 0;
    assert w.frames[s.tagId].at <= w.frames[s.id].at;
  }

  // A frame stamped at or before the start of the epoch never counts, whatever its tag says.
  lemma EarlierFrameNeverFresh(lag: nat, w: World, i: nat)
    requires Inv(lag, w) && w.reader.Done? && i < |REQUIRED| && CallShort(w, w.reader)
    requires w.reader.now < w.reader.seen[i].at + UINT32
    requires w.reader.seen[i].at <= w.starts[w.reader.epoch]
    ensures var r := w.reader; !Fresh(i, r.now, r.epoch, r.since, r.seen[i])
  {
    hide IsFrame, IsType, StartInReach, Low32, Int32;
    FreshSample(lag, w, i);
    assert SampleOk(lag, w, i, w.reader.seen[i]);
  }

  // No type was silent for a whole turn of the counter before the call.
  predicate NoTurnSilent(r: Reader)
    requires r.Sampling? || r.Done?
  {
    forall i :: 0 <= i < |r.seen| ==> r.now < r.seen[i].at + UINT32
  }

  predicate AboutToCheck(lag: nat, w: World)
  {
    Enabled(lag, w, CheckEpoch) && CallShort(w, w.reader) && NoTurnSilent(w.reader)
  }

  // In every run: when a call ends with all types fresh, each type was heard after the start of
  // the epoch that is current at its end, and within its budget of its beginning.
  lemma AllFreshMeansHeard(lag: nat, steps: seq<Step>)
    requires AboutToCheck(lag, Run(lag, Before(lag), steps))
    ensures var w := Run(lag, Before(lag), steps);
            WriterShape(w) && Enabled(lag, w, CheckEpoch)
            && var v := Do(lag, w, CheckEpoch);
               v.reader.Done? && |v.reader.seen| == |REQUIRED| && v.epoch < |v.starts|
               && (AllFresh(v.reader) ==>
                     forall i :: 0 <= i < |REQUIRED| ==> Heard(v, i, v.starts[v.epoch], v.reader.now))
  {
    hide IsFrame, IsType, Fresh, Run, TimeOk, TagOk, CellOk, WriterOk;
    var w := Run(lag, Before(lag), steps);
    RunInv(lag, Before(lag), steps);
    StepInv(lag, w, CheckEpoch);
    var v := Do(lag, w, CheckEpoch);
    if AllFresh(v.reader) {
      FreshAnswerHeard(lag, v);
    }
  }

  lemma HeardSince(v: World, i: nat, k: int, start: nat)
    requires v.reader.Done? && i < |REQUIRED|
    requires 0 <= k < |v.frames| && HeardAs(v.frames[k], i, v.reader.since, v.reader.now)
    requires start <= v.reader.since
    ensures Heard(v, i, start, v.reader.now)
  {
    hide IsFrame, IsType;
    assert HeardAs(v.frames[k], i, start, v.reader.now);
  }

  // What a finished call that answered all-fresh has heard.
  lemma FreshAnswerHeard(lag: nat, v: World)
    requires Inv(lag, v) && v.reader.Done? && CallShort(v, v.reader) && NoTurnSilent(v.reader) && AllFresh(v.reader)
    ensures v.reader.epoch < |v.starts|
    ensures forall i :: 0 <= i < |REQUIRED| ==> Heard(v, i, v.starts[v.reader.epoch], v.reader.now)
  {
    hide IsFrame, IsType, Fresh, TimeOk, TagOk, CellOk, WriterOk, Heard;
    forall i | 0 <= i < |REQUIRED| ensures Heard(v, i, v.starts[v.reader.epoch], v.reader.now) {
      FreshSample(lag, v, i);
      HeardSince(v, i, v.reader.seen[i].id, v.starts[v.reader.epoch]);
    }
  }

  // What a call answers, told from its samples.
  lemma AllFreshIff(lag: nat, w: World)
    requires Inv(lag, w) && w.reader.Done? && CallShort(w, w.reader) && NoTurnSilent(w.reader)
    ensures AllFresh(w.reader)
       <==> (w.reader.coherent
             && forall i :: 0 <= i < |REQUIRED| ==>
                  GenuineSample(w, i) && StartInReach(w.reader.seen[i].at, w.reader.since))
  {
    hide IsFrame, IsType, StartInReach, Fresh, TimeOk, TagOk, CellOk, WriterOk;
    forall i | 0 <= i < |REQUIRED|
      ensures Fresh(i, w.reader.now, w.reader.epoch, w.reader.since, w.reader.seen[i])
         <==> GenuineSample(w, i) && StartInReach(w.reader.seen[i].at, w.reader.since)
    {
      FreshSample(lag, w, i);
    }
  }

  // Tagged with the snapshot epoch, and a frame received since its start and within budget.
  predicate GenuineSample(w: World, i: nat)
    requires w.reader.Done? && |w.reader.seen| == |REQUIRED| && i < |REQUIRED|
  {
    var r, s := w.reader, w.reader.seen[i];
    s.tag == r.epoch && 0 <= s.id < |w.frames| && HeardAs(w.frames[s.id], i, r.since, r.now)
  }

  function Before(lag: nat): (w: World)
    ensures Inv(lag, w)
  {
    StartInv(lag);
    Start()
  }

  lemma {:induction false} RunInParts(lag: nat, w: World, a: seq<Step>, b: seq<Step>)
    requires Inv(lag, w)
    ensures Inv(lag, Run(lag, w, a)) && Run(lag, w, a + b) == Run(lag, Run(lag, w, a), b)
    decreases |a|
  {
    hide Sorted, EpochsOk, CellOk, WriterOk, ReaderOk, Do, Enabled;
    RunInv(lag, w, a);
    if a == [] {
      assert a + b == b;
    } else {
      assert (a + b)[1..] == a[1..] + b;
      if Enabled(lag, w, a[0]) {
        StepInv(lag, w, a[0]);
        RunInParts(lag, Do(lag, w, a[0]), a[1..], b);
      } else {
        RunInParts(lag, w, a[1..], b);
      }
    }
  }

  // --------------------------------------------------- why the bound is needed

  lemma {:induction false} RunAppend(lag: nat, w: World, steps: seq<Step>, s: Step)
    requires Inv(lag, w)
    ensures Inv(lag, Run(lag, w, steps))
    ensures Run(lag, w, steps + [s])
         == var v := Run(lag, w, steps); if Enabled(lag, v, s) then Do(lag, v, s) else v
    decreases |steps|
  {
    hide Sorted, EpochsOk, CellOk, WriterOk, ReaderOk, Do, Enabled;
    RunInv(lag, w, steps);
    if steps == [] {
      assert [] + [s] == [s];
    } else {
      assert (steps + [s])[1..] == steps[1..] + [s];
      if Enabled(lag, w, steps[0]) {
        StepInv(lag, w, steps[0]);
        RunAppend(lag, Do(lag, w, steps[0]), steps[1..], s);
      } else {
        RunAppend(lag, w, steps[1..], s);
      }
    }
  }

  lemma Extend(lag: nat, steps: seq<Step>, s: Step) returns (more: seq<Step>, w: World)
    requires Enabled(lag, Run(lag, Before(lag), steps), s)
    ensures more == steps + [s] && w == Run(lag, Before(lag), more)
    ensures WriterShape(Run(lag, Before(lag), steps)) && w == Do(lag, Run(lag, Before(lag), steps), s)
  {
    hide Do, Enabled, Run;
    RunAppend(lag, Before(lag), steps, s);
    more := steps + [s];
    w := Run(lag, Before(lag), more);
  }

  const LAG: nat := 60_000

  // A type not heard for 49 days: its first frame is received, the receiver is reset, and the
  // clock passes 2^32 ms.
  lemma AfterReset() returns (steps: seq<Step>)
    ensures Run(LAG, Before(LAG), steps)
         == Start().(clock := UINT32 + 5, epoch := 2, started := UINT32 - 1000, resetRequested := true,
                     starts := [0, 0, UINT32 - 1000], writer := Ingesting(UINT32 - 2000))
  {
    hide Sorted, EpochsOk, CellOk, WriterOk, ReaderOk;
    var w := Start();
    steps := [];
    steps, w := Extend(LAG, steps, Tick(UINT32 - 2000));
    steps, w := Extend(LAG, steps, BeginIngest);
    steps, w := Extend(LAG, steps, Tick(1000));
    steps, w := Extend(LAG, steps, ReadResetClock);
    steps, w := Extend(LAG, steps, StoreStart);
    steps, w := Extend(LAG, steps, Bump);
    steps, w := Extend(LAG, steps, SkipZero);
    steps, w := Extend(LAG, steps, RequestReset);
    steps, w := Extend(LAG, steps, Tick(1005));
  }

  lemma StampFrame(steps: seq<Step>, f: seq<Byte>, i: nat) returns (more: seq<Step>, v: World)
    requires var w := Run(LAG, Before(LAG), steps);
             w.writer.Ingesting? && IsFrame(f) && IsType(f, i) && w.clock <= w.writer.now + LAG
    ensures v == Run(LAG, Before(LAG), more)
    ensures var w := Run(LAG, Before(LAG), steps);
            && w.writer.Ingesting? && i < |w.cells|
            && v == w.(cells := w.cells[i := Cell(w.writer.now, |w.frames|, w.epoch, |w.frames|)],
                       frames := w.frames + [Stamped(f, i, w.writer.now)])
  {
    hide Sorted, EpochsOk, CellOk, WriterOk, ReaderOk, IsFrame, IsType, Run;
    StoredType(f, i);
    more, v := Extend(LAG, steps, StoreTime(f, i));
    more, v := Extend(LAG, more, ReadEpochWord);
    more, v := Extend(LAG, more, StoreTag);
  }

  lemma ReadSample(steps: seq<Step>) returns (more: seq<Step>, v: World)
    requires var w := Run(LAG, Before(LAG), steps); w.reader.Sampling? && |w.reader.seen| < |REQUIRED|
    ensures v == Run(LAG, Before(LAG), more)
    ensures var w := Run(LAG, Before(LAG), steps);
            && w.reader.Sampling? && |w.reader.seen| < |w.cells|
            && var r, c := w.reader, w.cells[|w.reader.seen|];
               v == w.(reader := Sampling(r.now, r.epoch, r.since, r.seen + [Sample(c.at, c.id, c.tag, c.tagId)]))
  {
    hide Sorted, EpochsOk, CellOk, WriterOk, ReaderOk, Run;
    more, v := Extend(LAG, steps, ReadTime);
    more, v := Extend(LAG, more, ReadTag);
  }

  lemma BeginCall(steps: seq<Step>) returns (more: seq<Step>, v: World)
    requires Run(LAG, Before(LAG), steps).reader.Away?
    ensures v == Run(LAG, Before(LAG), more)
    ensures var w := Run(LAG, Before(LAG), steps); v == w.(reader := Sampling(w.clock, w.epoch, w.started, []))
  {
    hide Sorted, EpochsOk, CellOk, WriterOk, ReaderOk, Run;
    more, v := Extend(LAG, steps, ReadNow);
    more, v := Extend(LAG, more, SnapshotEpoch);
    more, v := Extend(LAG, more, ReadSince);
  }

  lemma NothingYet()
    ensures Run(LAG, Before(LAG), []) == Start()
  {
  }

  lemma OneType(f: seq<Byte>, i: nat)
    requires IsType(f, i) && i > 0
    ensures !IsType(f, 0)
  {
  }

  predicate OneOfEach(fs: seq<seq<Byte>>)
  {
    |fs| == |REQUIRED| && forall i :: 0 <= i < |fs| ==> IsFrame(fs[i]) && IsType(fs[i], i)
  }

  // The shortest frame of a required type: its message number and four zero bits.
  function FrameOfType(i: nat): (f: seq<Byte>)
    requires i < |REQUIRED|
    ensures IsFrame(f) && IsType(f, i)
  {
    var payload: seq<Byte> := [REQUIRED[i] / 16, REQUIRED[i] % 16 * 16];
    EncodedIsFrame(payload, []);
    EncodedType(payload, i);
    Encode(payload)
  }

  lemma EncodedType(payload: seq<Byte>, i: nat)
    requires i < |REQUIRED| && payload == [REQUIRED[i] / 16, REQUIRED[i] % 16 * 16]
    ensures IsType(Encode(payload), i)
  {
    hide Trailer;
    var f := Encode(payload);
    assert f[3] == payload[0] && f[4] == payload[1];
    assert REQUIRED[i] / 16 * 16 + (REQUIRED[i] % 16 * 16) / 16 == REQUIRED[i];
  }

  function EachOnce(): (fs: seq<seq<Byte>>)
    ensures OneOfEach(fs)
  {
    [FrameOfType(0), FrameOfType(1), FrameOfType(2), FrameOfType(3)]
  }

  // A reader takes the timestamp of before the frame with the tag of after it.
  lemma TornSample(f: seq<Byte>) returns (steps: seq<Step>, w: World)
    requires IsFrame(f) && IsType(f, 0)
    ensures w == Run(LAG, Before(LAG), steps)
    ensures w == Start().(clock := UINT32 + 5, epoch := 2, started := UINT32 - 1000, resetRequested := true,
                          starts := [0, 0, UINT32 - 1000], writer := Ingesting(UINT32 - 2000),
                          cells := Start().cells[0 := Cell(UINT32 - 2000, 0, 2, 0)],
                          frames := [Stamped(f, 0, UINT32 - 2000)],
                          reader := Sampling(UINT32 + 5, 2, UINT32 - 1000, [Sample(0, -1, 2, 0)]))
  {
    hide Sorted, EpochsOk, CellOk, WriterOk, ReaderOk, IsFrame, IsType, Run;
    steps := AfterReset();
    steps, w := BeginCall(steps);
    steps, w := Extend(LAG, steps, ReadTime);
    assert w.reader == HalfSample(UINT32 + 5, 2, UINT32 - 1000, [], 0, -1);
    steps, w := StampFrame(steps, f, 0);
    assert w.cells[0] == Cell(UINT32 - 2000, 0, 2, 0);
    steps, w := Extend(LAG, steps, ReadTag);
    assert w.reader == Sampling(UINT32 + 5, 2, UINT32 - 1000, [Sample(0, -1, 2, 0)]);
  }

  // The other types are heard and read in the same call, and it answers that all are fresh, though
  // nothing was heard of the first since the reset.
  lemma TornReadMisleads(fs: seq<seq<Byte>>) returns (steps: seq<Step>)
    requires OneOfEach(fs)
    ensures var w := Run(LAG, Before(LAG), steps);
            && w.reader.Done? && |w.reader.seen| == |REQUIRED| && w.reader.epoch == w.epoch < |w.starts|
            && AllFresh(w.reader) && !Heard(w, 0, w.starts[w.epoch], w.reader.now)
  {
    hide Sorted, EpochsOk, CellOk, WriterOk, ReaderOk, IsFrame, IsType, Run, Fresh, AllFresh;
    var w := Start();
    steps, w := TornSample(fs[0]);
    steps, w := Extend(LAG, steps, EndIngest);
    steps, w := Extend(LAG, steps, BeginIngest);
    steps, w := StampFrame(steps, fs[1], 1);
    steps, w := StampFrame(steps, fs[2], 2);
    steps, w := StampFrame(steps, fs[3], 3);
    steps, w := ReadSample(steps);
    steps, w := ReadSample(steps);
    steps, w := ReadSample(steps);
    steps, w := Extend(LAG, steps, CheckEpoch);
    TornVerdict(w.reader);
    OneType(fs[1], 1);
    OneType(fs[2], 2);
    OneType(fs[3], 3);
    OnlyEarlier(w, fs);
  }

  lemma TornVerdict(r: Reader)
    requires r == Done(UINT32 + 5, 2, UINT32 - 1000,
                       [Sample(0, -1, 2, 0), Sample(UINT32 + 5, 1, 2, 1), Sample(UINT32 + 5, 2, 2, 2),
                        Sample(UINT32 + 5, 3, 2, 3)], true)
    ensures AllFresh(r)
  {
    hide Low32;
    Low32Near(1000 - UINT32);
    Low32Near(1005);
    Low32Near(0);
    Low32Near(5);
    ModShift(5, 1);
    assert forall i :: 1 <= i < |REQUIRED| ==> r.seen[i] == Sample(UINT32 + 5, i, 2, i);
    forall i | 0 <= i < |REQUIRED| ensures Fresh(i, r.now, r.epoch, r.since, r.seen[i]) {
      ModDifference(r.seen[i].at, r.since);
      ModDifference(r.now, r.seen[i].at);
    }
  }

  lemma OnlyEarlier(w: World, fs: seq<seq<Byte>>)
    requires |fs| == |REQUIRED| && w.frames != [] && w.reader.Done?
    requires w.epoch < |w.starts| && w.starts[w.epoch] == UINT32 - 1000
    requires w.frames == [Stamped(fs[0], 0, UINT32 - 2000)] + w.frames[1..]
    requires forall k :: 1 <= k < |w.frames| ==> !IsType(w.frames[k].frame, 0)
    ensures !Heard(w, 0, w.starts[w.epoch], w.reader.now)
  {
    hide IsFrame, IsType;
    assert w.frames[0].at == UINT32 - 2000;
  }

  // A station whose receiver was never reset in 25 days hears every required type at once, and the
  // call answers for each of them that it is missing: the start of the epoch is out of reach.
  lemma OldEpochHidesHealth(fs: seq<seq<Byte>>) returns (steps: seq<Step>)
    requires OneOfEach(fs)
    ensures var w := Run(LAG, Before(LAG), steps);
            && w.reader.Done? && |w.reader.seen| == |REQUIRED| && w.epoch < |w.starts| && w.reader.coherent
            && forall i :: 0 <= i < |REQUIRED| ==>
                 && Heard(w, i, w.starts[w.epoch], w.reader.now)
                 && !Fresh(i, w.reader.now, w.reader.epoch, w.reader.since, w.reader.seen[i])
  {
    hide Sorted, EpochsOk, CellOk, WriterOk, ReaderOk, IsFrame, IsType, Run;
    var w := Start();
    steps := [];
    NothingYet();
    steps, w := Extend(LAG, steps, Tick(HALF + 10));
    steps, w := Extend(LAG, steps, BeginIngest);
    steps, w := StampFrame(steps, fs[0], 0);
    steps, w := StampFrame(steps, fs[1], 1);
    steps, w := StampFrame(steps, fs[2], 2);
    steps, w := StampFrame(steps, fs[3], 3);
    steps, w := BeginCall(steps);
    steps, w := ReadSample(steps);
    steps, w := ReadSample(steps);
    steps, w := ReadSample(steps);
    steps, w := ReadSample(steps);
    steps, w := Extend(LAG, steps, CheckEpoch);
    assert forall i :: 0 <= i < |REQUIRED| ==> w.reader.seen[i] == Sample(HALF + 10, i, 1, i);
    forall i | 0 <= i < |REQUIRED| ensures Heard(w, i, w.starts[w.epoch], w.reader.now) {
      assert HeardAs(w.frames[i], i, w.starts[w.epoch], w.reader.now);
    }
  }
}
