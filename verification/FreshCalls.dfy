// A whole call for freshness, from its clock reading to its answer: what the frames received before
// it and the steps of the other tasks during it make it say.
module FreshCalls {
  import opened Words
  import opened RtcmScan
  import opened MsgFreshness

  // ------------------------------------------------------- the latest frame

  // A timestamp word is that of the latest frame of its type.
  predicate Latest(w: World)
  {
    forall i, k :: 0 <= i < |w.cells| && 0 <= k < |w.frames| && w.frames[k].i == i ==> k <= w.cells[i].id
  }

  // An epoch word about to be stored as a tag is no older than any tag stored.
  predicate TagsBehind(w: World)
  {
    w.writer.EpochRead? ==> forall i :: 0 <= i < |w.cells| ==> w.cells[i].tag <= w.writer.epoch
  }

  predicate Ordered(lag: nat, w: World)
  {
    Inv(lag, w) && Latest(w) && TagsBehind(w)
  }

  lemma StartOrdered(lag: nat)
    ensures Ordered(lag, Before(lag))
  {
  }

  lemma StepOrdered(lag: nat, w: World, s: Step)
    requires Ordered(lag, w) && Enabled(lag, w, s)
    ensures Ordered(lag, Do(lag, w, s))
  {
    hide IsFrame, ReaderOk, Sorted;
    StepInv(lag, w, s);
    var v := Do(lag, w, s);
    assert forall i :: 0 <= i < |w.cells| ==> CellOk(lag, w, i, w.cells[i]);
    if s.StoreTime? {
      StoreTimeLatest(lag, w, s.frame, s.i);
    } else {
      assert v.frames == w.frames;
      assert forall i :: 0 <= i < |w.cells| ==> v.cells[i].id == w.cells[i].id;
    }
  }

  lemma StoreTimeLatest(lag: nat, w: World, frame: seq<Byte>, i: nat)
    requires WriterShape(w) && Latest(w) && Enabled(lag, w, StoreTime(frame, i))
    requires forall k :: 0 <= k < |w.cells| ==> w.cells[k].id < |w.frames|
    ensures Latest(Do(lag, w, StoreTime(frame, i)))
  {
    hide IsFrame;
  }

  lemma {:induction false} RunOrdered(lag: nat, w: World, steps: seq<Step>)
    requires Ordered(lag, w)
    ensures Ordered(lag, Run(lag, w, steps))
    decreases |steps|
  {
    hide EpochsOk, Sorted, CellOk, WriterOk, ReaderOk, Do, Enabled, Latest, TagsBehind;
    if steps != [] {
      if Enabled(lag, w, steps[0]) {
        StepOrdered(lag, w, steps[0]);
        RunOrdered(lag, Do(lag, w, steps[0]), steps[1..]);
      } else {
        RunOrdered(lag, w, steps[1..]);
      }
    }
  }

  // ------------------------------------------------------------ during a call

  function Seen(r: Reader): seq<Sample>
  {
    if r.Sampling? || r.HalfSample? || r.Done? then r.seen else []
  }

  // Timestamps only move on, and samples are taken of them.
  predicate TimesMoveOn(b: World, w: World)
  {
    && |b.cells| == |w.cells| == |REQUIRED| && |Seen(w.reader)| <= |REQUIRED|
    && (forall i :: 0 <= i < |b.cells| ==> b.cells[i].at <= w.cells[i].at)
    && (forall i :: 0 <= i < |Seen(w.reader)| ==> b.cells[i].at <= Seen(w.reader)[i].at)
    && (w.reader.HalfSample? && |w.reader.seen| < |b.cells| ==> b.cells[|w.reader.seen|].at <= w.reader.at)
  }

  // Tags that are current stay so while there is no new epoch, and a coherent call of that epoch has
  // sampled them.
  predicate TagsStay(b: World, w: World)
    requires |b.cells| == |w.cells| == |REQUIRED| && |Seen(w.reader)| <= |REQUIRED|
  {
    var sampled := if w.reader.Done? then w.reader.coherent && w.reader.epoch == b.epoch else w.epoch == b.epoch;
    && (w.epoch == b.epoch ==>
          forall i :: 0 <= i < |b.cells| && b.cells[i].tag == b.epoch ==> w.cells[i].tag == b.epoch)
    && (sampled ==>
          forall i :: 0 <= i < |Seen(w.reader)| && b.cells[i].tag == b.epoch ==> Seen(w.reader)[i].tag == b.epoch)
  }

  // `w` lies in, or at the end of, the call that began in `b`.
  predicate Within(b: World, w: World)
  {
    && b.epoch <= w.epoch && b.starts <= w.starts && b.frames <= w.frames
    && !w.reader.Away? && w.reader.now == b.clock
    && (!w.reader.HasNow? ==> b.epoch <= w.reader.epoch)
    && TimesMoveOn(b, w) && TagsStay(b, w)
  }

  lemma CallBegins(lag: nat, b: World)
    requires Inv(lag, b) && Enabled(lag, b, ReadNow)
    ensures Within(b, Do(lag, b, ReadNow))
  {
  }

  lemma ReaderWithin(lag: nat, b: World, w: World, s: Step)
    requires Ordered(lag, w) && Within(b, w) && Enabled(lag, w, s)
    requires s.SnapshotEpoch? || s.ReadSince? || s.ReadTime? || s.ReadTag? || s.CheckEpoch?
    ensures Within(b, Do(lag, w, s))
  {
    hide Latest, Sorted, CellOk, WriterOk, SampleOk, TimeOk;
  }

  // A timestamp word is not later than the clock reading the writer is about to store.
  lemma CellNotLater(lag: nat, w: World, i: nat)
    requires Inv(lag, w) && i < |w.cells| && !w.writer.Idle?
    ensures w.cells[i].at <= w.writer.now
  {
    hide IsFrame, IsType, ReaderOk, TagOk;
    assert CellOk(lag, w, i, w.cells[i]);
    if w.cells[i].id >= 0 {
      assert w.frames[w.cells[i].id].at <= w.frames[|w.frames| - 1].at;
    }
  }

  lemma WriterWithin(lag: nat, b: World, w: World, s: Step)
    requires Ordered(lag, w) && Within(b, w) && Enabled(lag, w, s)
    requires s.BeginIngest? || s.StoreTime? || s.ReadEpochWord? || s.StoreTag? || s.EndIngest?
    ensures Within(b, Do(lag, w, s))
  {
    hide Latest, Sorted, CellOk, SampleOk, TimeOk, IsFrame, ReaderOk;
    if s.StoreTime? {
      CellNotLater(lag, w, s.i);
    }
    if s.StoreTag? {
      assert w.writer.epoch <= w.epoch;
    }
  }

  lemma ResetterWithin(lag: nat, b: World, w: World, s: Step)
    requires Ordered(lag, w) && Within(b, w) && Enabled(lag, w, s)
    requires s.Tick? || s.ReadResetClock? || s.StoreStart? || s.Bump? || s.SkipZero? || s.RequestReset?
    ensures Within(b, Do(lag, w, s))
  {
    hide Latest, Sorted, CellOk, SampleOk, TimeOk, WriterOk, ReaderOk;
  }

  lemma StepWithin(lag: nat, b: World, w: World, s: Step)
    requires Ordered(lag, w) && Within(b, w) && Enabled(lag, w, s) && !s.Leave?
    ensures Within(b, Do(lag, w, s))
  {
    hide Ordered, Within, Do;
    match s
    case BeginIngest => WriterWithin(lag, b, w, s);
    case StoreTime(_, _) => WriterWithin(lag, b, w, s);
    case ReadEpochWord => WriterWithin(lag, b, w, s);
    case StoreTag => WriterWithin(lag, b, w, s);
    case EndIngest => WriterWithin(lag, b, w, s);
    case SnapshotEpoch => ReaderWithin(lag, b, w, s);
    case ReadSince => ReaderWithin(lag, b, w, s);
    case ReadTime => ReaderWithin(lag, b, w, s);
    case ReadTag => ReaderWithin(lag, b, w, s);
    case CheckEpoch => ReaderWithin(lag, b, w, s);
    case ReadNow => NotAway(b, w);
    case _ => ResetterWithin(lag, b, w, s);
  }

  lemma NotAway(b: World, w: World)
    requires Within(b, w)
    ensures !w.reader.Away?
  {
  }

  lemma {:induction false} RunWithin(lag: nat, b: World, w: World, steps: seq<Step>)
    requires Ordered(lag, w) && Within(b, w) && Leave !in steps
    ensures Within(b, Run(lag, w, steps))
    decreases |steps|
  {
    hide EpochsOk, Sorted, CellOk, WriterOk, ReaderOk, Do, Enabled, Latest, TagsBehind, Within;
    if steps != [] {
      if Enabled(lag, w, steps[0]) {
        StepOrdered(lag, w, steps[0]);
        StepWithin(lag, b, w, steps[0]);
        RunWithin(lag, b, Do(lag, w, steps[0]), steps[1..]);
      } else {
        RunWithin(lag, b, w, steps[1..]);
      }
    }
  }

  // A finished call, short enough: from the clock reading in `b` to the answer in `v`.
  predicate Call(lag: nat, b: World, v: World)
  {
    Ordered(lag, b) && Ordered(lag, v) && Within(b, v) && v.reader.Done? && CallShort(v, v.reader)
  }

  // Every run from a clock reading to an answer is one.
  lemma RunsAreCalls(lag: nat, before: seq<Step>, during: seq<Step>)
    requires Enabled(lag, Run(lag, Before(lag), before), ReadNow) && Leave !in during
    ensures var b, v := Run(lag, Before(lag), before), Run(lag, Before(lag), before + [ReadNow] + during);
            Ordered(lag, b) && Ordered(lag, v) && Within(b, v)
  {
    hide EpochsOk, Sorted, CellOk, WriterOk, ReaderOk, Do, Latest, TagsBehind, Within, Run;
    var b := Run(lag, Before(lag), before);
    StartOrdered(lag);
    RunOrdered(lag, Before(lag), before);
    RunAppend(lag, Before(lag), before, ReadNow);
    StepOrdered(lag, b, ReadNow);
    CallBegins(lag, b);
    RunInParts(lag, Before(lag), before + [ReadNow], during);
    RunOrdered(lag, Do(lag, b, ReadNow), during);
    RunWithin(lag, b, Do(lag, b, ReadNow), during);
  }

  // --------------------------------------------------------------- soundness

  // The type was not silent for a whole turn of the counter before the call: a frame of it was
  // stamped in that time, or the device was not yet on that long.
  ghost predicate StampedLately(b: World, i: nat)
  {
    b.clock < UINT32 || exists k :: 0 <= k < |b.frames| && StampAt(b, k, i)
  }

  predicate StampAt(b: World, k: nat, i: nat)
    requires k < |b.frames|
  {
    b.frames[k].i == i && b.clock < b.frames[k].at + UINT32
  }

  // The timestamp word is at least as late as any frame of its type.
  lemma LatestAt(lag: nat, b: World, i: nat, k: nat)
    requires Ordered(lag, b) && i < |REQUIRED| && k < |b.frames| && b.frames[k].i == i
    ensures b.frames[k].at <= b.cells[i].at <= b.clock
  {
    hide IsFrame, IsType, ReaderOk, WriterOk, TagOk;
    assert CellOk(lag, b, i, b.cells[i]);
    assert k <= b.cells[i].id;
  }

  // What was not silent so long is not misread, however the call interleaves with the other tasks: no
  // sample of it is a whole turn old.
  lemma LateStampsSuffice(lag: nat, b: World, v: World)
    requires Call(lag, b, v) && forall i :: 0 <= i < |REQUIRED| ==> StampedLately(b, i)
    ensures NoTurnSilent(v.reader)
  {
    hide Latest, Sorted, CellOk, SampleOk, TimeOk, WriterOk, TagsBehind, EpochsOk;
    forall i | 0 <= i < |v.reader.seen| ensures v.reader.now < v.reader.seen[i].at + UINT32 {
      assert StampedLately(b, i);
      if b.clock >= UINT32 {
        var k :| 0 <= k < |b.frames| && StampAt(b, k, i);
        LatestAt(lag, b, i, k);
        assert b.cells[i].at <= Seen(v.reader)[i].at;
      }
    }
  }

  // So in every run: if no type was silent for the 49 days before a call that answers all-fresh,
  // every type was heard in the epoch the call saw, and within its budget.
  lemma StampedAndFreshMeansHeard(lag: nat, b: World, v: World)
    requires Call(lag, b, v) && AllFresh(v.reader)
    requires forall i :: 0 <= i < |REQUIRED| ==> StampedLately(b, i)
    ensures v.reader.epoch < |v.starts|
    ensures forall i :: 0 <= i < |REQUIRED| ==> Heard(v, i, v.starts[v.reader.epoch], v.reader.now)
  {
    hide Latest, Sorted, CellOk, SampleOk, TimeOk, WriterOk, TagsBehind, EpochsOk, Within, Heard, Fresh, StampedLately;
    LateStampsSuffice(lag, b, v);
    FreshAnswerHeard(lag, v);
  }

  // ------------------------------------------------------------ completeness

  // When the call began every type had been heard, in the epoch then current and within its budget.
  ghost predicate HeardBefore(b: World)
    requires b.epoch < |b.starts|
  {
    forall i :: 0 <= i < |REQUIRED| ==> Heard(b, i, b.starts[b.epoch], b.clock)
  }

  // The sample is tagged with the epoch of the call, and stamped after its start but not after the
  // clock reading of the call, with the start in reach.
  predicate Accepts(r: Reader, i: nat)
    requires r.Done? && i < |r.seen|
  {
    var s := r.seen[i];
    s.tag == r.epoch && r.since < s.at <= r.now && StartInReach(s.at, r.since)
  }

  lemma TypeIsUnique(f: seq<Byte>, i: nat, j: nat)
    requires IsType(f, i) && IsType(f, j)
    ensures i == j
  {
  }

  lemma HeardIsLatest(lag: nat, b: World, i: nat)
    requires Ordered(lag, b) && i < |REQUIRED| && b.epoch < |b.starts| && Heard(b, i, b.starts[b.epoch], b.clock)
    ensures b.starts[b.epoch] < b.cells[i].at <= b.clock && b.clock - b.cells[i].at <= BUDGET_MS[i]
    ensures StampedLately(b, i)
  {
    hide IsFrame, IsType, Latest, TagsBehind, CellOk, WriterOk, ReaderOk, EpochsOk;
    var k :| 0 <= k < |b.frames| && HeardAs(b.frames[k], i, b.starts[b.epoch], b.clock);
    TypeIsUnique(b.frames[k].frame, b.frames[k].i, i);
    LatestAt(lag, b, i, k);
    assert StampAt(b, k, i);
  }

  // Behind a heard frame, a sample is genuine exactly if the call accepts it but for reach.
  lemma SampleGenuine(lag: nat, b: World, v: World, i: nat)
    requires Call(lag, b, v) && i < |REQUIRED| && b.epoch < |b.starts| && Heard(b, i, b.starts[b.epoch], b.clock)
    ensures var r, s := v.reader, v.reader.seen[i];
            GenuineSample(v, i) <==> s.tag == r.epoch && r.since < s.at <= r.now
  {
    hide IsType, Latest, TagsBehind, CellOk, WriterOk, TagOk, IsFrame;
    HeardIsLatest(lag, b, i);
    var s := v.reader.seen[i];
    assert SampleOk(lag, v, i, s);
    assert b.cells[i].at <= Seen(v.reader)[i].at;
  }

  // A receiver that was heard when the call began: the call answers all-fresh exactly if no reset
  // took effect in it and it accepts every sample.
  lemma HeardAnswersIff(lag: nat, b: World, v: World)
    requires Call(lag, b, v) && b.epoch < |b.starts| && HeardBefore(b)
    ensures AllFresh(v.reader)
       <==> (v.reader.coherent && forall i :: 0 <= i < |REQUIRED| ==> Accepts(v.reader, i))
  {
    hide IsFrame, IsType, Latest, Sorted, TagsBehind, CellOk, WriterOk, EpochsOk, TimeOk, TagOk, Within, StartInReach;
    hide Heard, GenuineSample, StampedLately, AllFresh;
    forall i | 0 <= i < |REQUIRED|
      ensures StampedLately(b, i)
      ensures GenuineSample(v, i) && StartInReach(v.reader.seen[i].at, v.reader.since) <==> Accepts(v.reader, i)
    {
      HeardIsLatest(lag, b, i);
      SampleGenuine(lag, b, v, i);
    }
    LateStampsSuffice(lag, b, v);
    AllFreshIff(lag, v);
  }

  // What can keep a call from accepting a type that was heard when it began: a tag of another epoch,
  // the start of a reset under way, a frame stamped in the call from a later clock reading, or a start
  // out of reach.
  lemma HeardButNotAccepted(lag: nat, b: World, v: World, i: nat)
    requires Call(lag, b, v) && i < |REQUIRED| && b.epoch < |b.starts| && Heard(b, i, b.starts[b.epoch], b.clock)
    requires !Accepts(v.reader, i)
    ensures var r, s := v.reader, v.reader.seen[i];
            || s.tag != r.epoch
            || b.starts[b.epoch] < r.since
            || (r.now < s.at && |b.frames| <= s.id < |v.frames| && v.frames[s.id].i == i && v.frames[s.id].at == s.at)
            || !StartInReach(s.at, r.since)
  {
    hide IsFrame, IsType, Latest, TagsBehind, CellOk, WriterOk, TagOk, StartInReach;
    HeardIsLatest(lag, b, i);
    var s := v.reader.seen[i];
    assert SampleOk(lag, v, i, s);
    assert b.cells[i].at <= Seen(v.reader)[i].at;
    if 0 <= s.id < |b.frames| {
      assert b.frames[s.id] == v.frames[s.id];
    }
  }

  // The call saw the epoch that was current when it began, with its own start.
  predicate SameEpoch(b: World, r: Reader)
    requires b.epoch < |b.starts| && r.Done?
  {
    r.epoch == b.epoch && r.since == b.starts[b.epoch]
  }

  // A receiver heard and tagged when the call began reads as fresh exactly if no reset takes effect
  // in the call, every start is in reach and no sample was stamped later than the clock of the call.
  // A timestamp whose own tag is still to be stored does no harm: the tag in front of it is of the
  // same epoch.
  lemma HeardAnswersUndisturbedIff(lag: nat, b: World, v: World)
    requires Call(lag, b, v) && b.epoch < |b.starts| && HeardBefore(b) && SameEpoch(b, v.reader)
    requires forall i :: 0 <= i < |REQUIRED| ==> b.cells[i].tag == b.epoch
    ensures AllFresh(v.reader)
       <==> (v.reader.coherent
             && forall i :: 0 <= i < |REQUIRED| ==>
                  v.reader.seen[i].at <= v.reader.now && StartInReach(v.reader.seen[i].at, v.reader.since))
  {
    hide IsFrame, IsType, Latest, Sorted, TagsBehind, CellOk, WriterOk, TimeOk, TagOk, StartInReach;
    hide Heard, AllFresh;
    HeardAnswersIff(lag, b, v);
    if v.reader.coherent {
      forall i | 0 <= i < |REQUIRED|
        ensures Accepts(v.reader, i)
           <==> v.reader.seen[i].at <= v.reader.now && StartInReach(v.reader.seen[i].at, v.reader.since)
      {
        HeardIsLatest(lag, b, i);
        assert b.cells[i].at <= Seen(v.reader)[i].at && Seen(v.reader)[i].tag == b.epoch;
      }
    }
  }

  // In an epoch of less than 25 days the start is always in reach: what is left is the clock.
  lemma HeardAnswersInYoungEpochIff(lag: nat, b: World, v: World)
    requires Call(lag, b, v) && b.epoch < |b.starts| && HeardBefore(b) && SameEpoch(b, v.reader)
    requires forall i :: 0 <= i < |REQUIRED| ==> b.cells[i].tag == b.epoch
    requires b.clock < b.starts[b.epoch] + HALF
    ensures AllFresh(v.reader)
       <==> (v.reader.coherent && forall i :: 0 <= i < |REQUIRED| ==> v.reader.seen[i].at <= v.reader.now)
  {
    hide IsFrame, IsType, Latest, Sorted, TagsBehind, CellOk, WriterOk, TimeOk, TagOk, Heard, AllFresh, StampedLately;
    HeardAnswersUndisturbedIff(lag, b, v);
    forall i | 0 <= i < |REQUIRED| && v.reader.seen[i].at <= v.reader.now
      ensures StartInReach(v.reader.seen[i].at, v.reader.since)
    {
      HeardIsLatest(lag, b, i);
      assert b.cells[i].at <= Seen(v.reader)[i].at;
      Low32Near(v.reader.seen[i].at - v.reader.since);
    }
  }
}
