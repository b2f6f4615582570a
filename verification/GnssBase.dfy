// What the firmware believes the receiver's base position to be, and what it is. The receiver is
// the environment: it answers or stays silent, and the only thing taken on trust is that a
// command it answers with OK has been applied.
module GnssBase {
  import opened GnssAck

  const ACK_RETRIES: nat := 3
  const COOLDOWN_US: nat := 60_000_000
  const SETUP_COMMANDS: nat := 13

  datatype Coord = Coord(lat: real, lon: real, h: real)

  function Abs(x: real): real { if x < 0.0 then -x else x }

  // The idempotence tolerance: 1e-9 degrees and half a millimetre.
  predicate Near(a: Coord, b: Coord)
  {
    Abs(a.lat - b.lat) < 0.000000001 && Abs(a.lon - b.lon) < 0.000000001 && Abs(a.h - b.h) < 0.0005
  }

  predicate CoordValid(c: Coord)
  {
    && !(c.lat == 0.0 && c.lon == 0.0)
    && -90.0 <= c.lat <= 90.0 && -180.0 <= c.lon <= 180.0
  }

  predicate HeightValid(h: real) { -500.0 <= h <= 9000.0 }

  predicate Valid(c: Coord) { CoordValid(c) && HeightValid(c.h) }

  // "%.9f %.9f %.4f"
  function Rounded(x: real, unit: real): real
    requires unit > 0.0
  {
    (x / unit + 0.5).Floor as real * unit
  }

  function Printed(c: Coord): Coord
  {
    Coord(Rounded(c.lat, 0.000000001), Rounded(c.lon, 0.000000001), Rounded(c.h, 0.0001))
  }

  lemma RoundedNear(x: real, unit: real)
    requires unit > 0.0
    ensures Abs(Rounded(x, unit) - x) <= unit / 2.0
  {
    var q := x / unit;
    var f := (q + 0.5).Floor as real;
    assert -0.5 <= f - q <= 0.5;
    Quotient(x, unit, f);
    Scaled(f - q, unit);
  }

  lemma Quotient(x: real, unit: real, f: real)
    requires unit > 0.0
    ensures f * unit - x == (f - x / unit) * unit
  {
  }

  lemma Scaled(d: real, unit: real)
    requires unit > 0.0 && -0.5 <= d <= 0.5
    ensures -(unit / 2.0) <= d * unit <= unit / 2.0
  {
    assert (0.5 - d) * unit >= 0.0 && (d + 0.5) * unit >= 0.0;
  }

  // A receiver on a printed coordinate within tolerance of the wanted one is within a nanodegree
  // and a half, and about half a millimetre, of it.
  lemma PrintedWithinTolerance(latched: Coord, wanted: Coord)
    requires Near(latched, wanted)
    ensures var p := Printed(latched);
            && Abs(p.lat - wanted.lat) < 0.0000000015 && Abs(p.lon - wanted.lon) < 0.0000000015
            && Abs(p.h - wanted.h) < 0.00055
  {
    hide Rounded;
    RoundedNear(latched.lat, 0.000000001);
    RoundedNear(latched.lon, 0.000000001);
    RoundedNear(latched.h, 0.0001);
  }

  // ------------------------------------------------------------- the receiver

  datatype Command = Setup(i: nat) | Undulation | ModeBase(c: Coord) | SurveyIn | SaveConfig

  // A fixed base with the coordinate of its command and whether the receiver's undulation was zero
  // when it took it.
  datatype BaseMode = Unknown | Surveying | Fixed(at: Coord, undulationZero: bool)

  datatype Receiver = Receiver(base: BaseMode, undulationZero: bool)

  function Apply(r: Receiver, cmd: Command): Receiver
  {
    match cmd
    case Undulation => r.(undulationZero := true)
    case ModeBase(c) => r.(base := Fixed(Printed(c), r.undulationZero))
    case SurveyIn => r.(base := Surveying)
    case _ => r
  }

  // One sending of a command: whether the receiver takes it, and the verdict read from its reply.
  datatype Attempt = Attempt(applied: bool, verdict: Verdict)

  // An OK reply means applied; a refusal or silence means nothing.
  type Exchange = xs: seq<Attempt> |
      |xs| == ACK_RETRIES + 1 && forall i :: 0 <= i < |xs| ==> xs[i].verdict == Ok ==> xs[i].applied
    witness seq(ACK_RETRIES + 1, _ => Attempt(false, Verdict.None))

  // The first verdict decides; without one the command is sent again.
  function Acked(xs: seq<Attempt>): bool
  {
    xs != [] && (if xs[0].verdict == Verdict.None then Acked(xs[1..]) else xs[0].verdict == Ok)
  }

  // Whether the receiver took any of the sendings up to the deciding one.
  function Taken(xs: seq<Attempt>): bool
  {
    xs != [] && (xs[0].applied || (xs[0].verdict == Verdict.None && Taken(xs[1..])))
  }

  // The first verdict decides, whatever comes behind it; and what the receiver took on the way to it
  // counts, answered or not.
  lemma {:induction false} FirstVerdictDecides(xs: seq<Attempt>)
    ensures Acked(xs) <==> exists k :: 0 <= k < |xs| && xs[k].verdict == Ok && Unanswered(xs, k)
    ensures Taken(xs) <==> exists k :: 0 <= k < |xs| && xs[k].applied && Unanswered(xs, k)
  {
    if xs != [] {
      FirstVerdictDecides(xs[1..]);
      assert Unanswered(xs, 0);
      forall k | 0 < k < |xs|
        ensures Unanswered(xs, k) <==> xs[0].verdict == Verdict.None && Unanswered(xs[1..], k - 1)
        ensures xs[k] == xs[1..][k - 1]
      {
        assert Unanswered(xs, k) ==> forall j :: 0 <= j < k - 1 ==> xs[1..][j] == xs[j + 1];
      }
      assert forall k :: 0 <= k < |xs[1..]| && Unanswered(xs[1..], k) && xs[0].verdict == Verdict.None
                         ==> Unanswered(xs, k + 1) && xs[k + 1] == xs[1..][k];
    }
  }

  // None of the first `k` sendings was answered.
  predicate Unanswered(xs: seq<Attempt>, k: nat)
    requires k <= |xs|
  {
    forall j :: 0 <= j < k ==> xs[j].verdict == Verdict.None
  }

  lemma {:induction false} AckedIsTaken(xs: seq<Attempt>)
    requires forall i :: 0 <= i < |xs| ==> xs[i].verdict == Ok ==> xs[i].applied
    ensures Acked(xs) ==> Taken(xs)
  {
    if xs != [] {
      AckedIsTaken(xs[1..]);
    }
  }

  lemma ApplyTwice(r: Receiver, cmd: Command)
    ensures Apply(Apply(r, cmd), cmd) == Apply(r, cmd)
  {
  }

  // --------------------------------------------------------- what was sent

  // What went to the receiver: a command with the replies to its sendings, or a reset and whatever
  // the receiver is behind it.
  datatype Sent = Issued(cmd: Command, xs: Exchange) | Restarted(after: Receiver)

  function Play(sent: seq<Sent>): Receiver
  {
    if sent == [] then Receiver(Unknown, false)
    else
      var r := Play(sent[..|sent| - 1]);
      match sent[|sent| - 1]
      case Issued(cmd, xs) => if Taken(xs) then Apply(r, cmd) else r
      case Restarted(after) => after
  }

  // The firmware knows the base mode: the last command that could have changed it set a base and
  // was answered with OK, and no reset came behind it.
  predicate ModeKnown(sent: seq<Sent>)
  {
    sent != [] &&
    match sent[|sent| - 1]
    case Restarted(_) => false
    case Issued(cmd, xs) =>
      match cmd
      case ModeBase(_) => Acked(xs)
      case SurveyIn => false
      case _ => ModeKnown(sent[..|sent| - 1])
  }

  // A zeroing of the undulation was answered with OK since the last reset.
  predicate UndulationAcked(sent: seq<Sent>)
  {
    sent != [] &&
    match sent[|sent| - 1]
    case Restarted(_) => false
    case Issued(cmd, xs) => (cmd.Undulation? && Acked(xs)) || UndulationAcked(sent[..|sent| - 1])
  }

  // So it was in front of the command that set the base.
  predicate ZeroKnown(sent: seq<Sent>)
  {
    sent != [] &&
    match sent[|sent| - 1]
    case Restarted(_) => false
    case Issued(cmd, xs) =>
      match cmd
      case ModeBase(_) => UndulationAcked(sent[..|sent| - 1])
      case SurveyIn => false
      case _ => ZeroKnown(sent[..|sent| - 1])
  }

  lemma SentAppend(sent: seq<Sent>, e: Sent)
    ensures Play(sent + [e]) == (if e.Restarted? then e.after
                                 else if Taken(e.xs) then Apply(Play(sent), e.cmd)
                                 else Play(sent))
    ensures ModeKnown(sent + [e]) == (e.Issued? && (if e.cmd.ModeBase? then Acked(e.xs)
                                                     else !e.cmd.SurveyIn? && ModeKnown(sent)))
  {
    assert (sent + [e])[..|sent|] == sent;
  }

  // Every coordinate that was sent as a base lies on Earth: in range, not the origin, at a height
  // where somebody may stand.
  predicate OnEarth(c: Coord)
  {
    && Abs(c.lat) <= 90.0 && Abs(c.lon) <= 180.0 && (c.lat != 0.0 || c.lon != 0.0)
    && c.h >= -500.0 && c.h <= 9000.0
  }

  predicate SaneModes(sent: seq<Sent>)
  {
    forall i :: 0 <= i < |sent| && sent[i].Issued? && sent[i].cmd.ModeBase? ==> OnEarth(sent[i].cmd.c)
  }

  // The gate lets through exactly those.
  lemma ValidIffOnEarth(c: Coord)
    ensures Valid(c) <==> OnEarth(c)
  {
  }

  lemma ZeroAppend(sent: seq<Sent>, e: Sent)
    ensures UndulationAcked(sent + [e]) == (e.Issued? && ((e.cmd.Undulation? && Acked(e.xs)) || UndulationAcked(sent)))
    ensures ZeroKnown(sent + [e]) == (e.Issued? && (if e.cmd.ModeBase? then UndulationAcked(sent)
                                                    else !e.cmd.SurveyIn? && ZeroKnown(sent)))
  {
    assert (sent + [e])[..|sent|] == sent;
  }

  // -------------------------------------------- what the replies let it know

  // Two courses of events that look the same from the firmware's side.
  predicate SameReplies(a: seq<Sent>, b: seq<Sent>)
  {
    |a| == |b| && forall i :: 0 <= i < |a| ==> SameReply(a[i], b[i])
  }

  predicate SameReply(a: Sent, b: Sent)
  {
    if a.Restarted? then b.Restarted?
    else b.Issued? && a.cmd == b.cmd && forall j :: 0 <= j < |a.xs| ==> a.xs[j].verdict == b.xs[j].verdict
  }

  predicate ZeroedMode(r: Receiver) { r.base.Fixed? && r.base.undulationZero }

  lemma {:induction false} SameVerdicts(a: seq<Attempt>, b: seq<Attempt>)
    requires |a| == |b| && forall j :: 0 <= j < |a| ==> a[j].verdict == b[j].verdict
    ensures Acked(a) == Acked(b)
  {
    if a != [] {
      SameVerdicts(a[1..], b[1..]);
    }
  }

  lemma {:induction false} AckedZeroIsZero(sent: seq<Sent>, other: seq<Sent>)
    requires SameReplies(sent, other)
    ensures UndulationAcked(sent) ==> Play(other).undulationZero
  {
    hide Taken, Acked;
    if sent != [] {
      var n := |sent| - 1;
      assert SameReply(sent[n], other[n]);
      AckedZeroIsZero(sent[..n], other[..n]);
      if sent[n].Issued? {
        SameVerdicts(sent[n].xs, other[n].xs);
        AckedIsTaken(other[n].xs);
      }
    }
  }

  lemma {:induction false} KnownZeroIsZero(sent: seq<Sent>, other: seq<Sent>)
    requires SameReplies(sent, other) && ModeKnown(sent)
    ensures ZeroKnown(sent) ==> ZeroedMode(Play(other))
    ensures Play(other).base.Fixed?
  {
    hide Taken, Acked, Rounded;
    var n := |sent| - 1;
    assert SameReply(sent[n], other[n]);
    SameVerdicts(sent[n].xs, other[n].xs);
    AckedIsTaken(other[n].xs);
    if sent[n].cmd.ModeBase? {
      AckedZeroIsZero(sent[..n], other[..n]);
    } else {
      KnownZeroIsZero(sent[..n], other[..n]);
    }
  }

  // The course in which the receiver takes nothing it does not answer with OK, and every reset
  // leaves the undulation in force.
  function Grudging(xs: Exchange): (ys: Exchange)
    ensures forall j :: 0 <= j < |xs| ==> ys[j].verdict == xs[j].verdict && ys[j].applied == (xs[j].verdict == Ok)
  {
    seq(|xs|, j requires 0 <= j < |xs| => Attempt(xs[j].verdict == Ok, xs[j].verdict))
  }

  function Worst(sent: seq<Sent>): (r: seq<Sent>)
    ensures |r| == |sent|
  {
    if sent == [] then []
    else
      Worst(sent[..|sent| - 1]) +
      [match sent[|sent| - 1]
       case Issued(cmd, xs) => Issued(cmd, Grudging(xs))
       case Restarted(_) => Restarted(Receiver(Unknown, false))]
  }

  lemma {:induction false} GrudgingTaken(xs: seq<Attempt>)
    requires forall j :: 0 <= j < |xs| ==> xs[j].applied == (xs[j].verdict == Ok)
    ensures Taken(xs) == Acked(xs)
  {
    if xs != [] {
      GrudgingTaken(xs[1..]);
    }
  }

  lemma {:induction false} WorstLooksTheSame(sent: seq<Sent>)
    ensures SameReplies(sent, Worst(sent))
  {
    if sent != [] {
      var n := |sent| - 1;
      var head, all := Worst(sent[..n]), Worst(sent);
      WorstLooksTheSame(sent[..n]);
      assert all[..n] == head;
      forall i | 0 <= i < |sent| ensures SameReply(sent[i], all[i]) {
        if i < n {
          assert SameReply(sent[..n][i], head[i]) && all[i] == head[i];
        }
      }
    }
  }

  lemma {:induction false} WorstZero(sent: seq<Sent>)
    ensures Play(Worst(sent)).undulationZero == UndulationAcked(sent)
  {
    hide Taken, Acked;
    if sent != [] {
      var n := |sent| - 1;
      WorstZero(sent[..n]);
      assert Worst(sent)[..n] == Worst(sent[..n]);
      if sent[n].Issued? {
        SameVerdicts(sent[n].xs, Grudging(sent[n].xs));
        GrudgingTaken(Grudging(sent[n].xs));
      }
    }
  }

  lemma {:induction false} WorstMode(sent: seq<Sent>)
    requires ModeKnown(sent)
    ensures ZeroedMode(Play(Worst(sent))) == ZeroKnown(sent)
  {
    hide Taken, Acked, Rounded;
    var n := |sent| - 1;
    assert Worst(sent)[..n] == Worst(sent[..n]);
    SameVerdicts(sent[n].xs, Grudging(sent[n].xs));
    GrudgingTaken(Grudging(sent[n].xs));
    if sent[n].cmd.ModeBase? {
      WorstZero(sent[..n]);
    } else {
      WorstMode(sent[..n]);
    }
  }

  // The receiver takes the commanded height as it is meant in every course of events that looks the
  // same from the firmware's side, exactly if a zeroing of the undulation was answered with OK
  // between the last reset and the command that set the base.
  lemma ZeroKnownIff(sent: seq<Sent>)
    requires ModeKnown(sent)
    ensures (forall other :: SameReplies(sent, other) ==> ZeroedMode(Play(other))) <==> ZeroKnown(sent)
  {
    hide ModeKnown, ZeroKnown, ZeroedMode, Play, SameReplies;
    WorstLooksTheSame(sent);
    WorstMode(sent);
    forall other | SameReplies(sent, other) ensures ZeroKnown(sent) ==> ZeroedMode(Play(other)) {
      KnownZeroIsZero(sent, other);
    }
  }

  // --------------------------------------------------------------- the history

  // Attempts to put the receiver on a coordinate, with the time they began and ended, and resets.
  datatype Entry = Tried(c: Coord, start: nat, end: nat, ok: bool) | Reset

  predicate FailedAt(e: Entry, c: Coord)
  {
    e.Tried? && !e.ok && Near(e.c, c)
  }

  // Only failed tries at the coordinate of the later entry lie between two entries.
  predicate Undisturbed(h: seq<Entry>, i: nat, j: nat)
    requires i < j < |h| && h[j].Tried?
  {
    forall k :: i < k < j ==> FailedAt(h[k], h[j].c)
  }

  // A coordinate that failed is not tried again within the cooldown, as long as nothing but such
  // failures lies between.
  predicate Spaced(h: seq<Entry>)
  {
    forall i, j :: 0 <= i < j < |h| && h[j].Tried? && FailedAt(h[i], h[j].c) && Undisturbed(h, i, j)
                   ==> h[j].start >= h[i].end + COOLDOWN_US
  }

  predicate InTime(h: seq<Entry>)
  {
    && (forall i :: 0 <= i < |h| && h[i].Tried? ==> h[i].start <= h[i].end)
    && forall i, j :: 0 <= i < j < |h| && h[i].Tried? && h[j].Tried? ==> h[i].end <= h[j].start
  }

  // The last thing that happened was a failed try at this coordinate, less than a minute ago.
  predicate CoolingAfter(h: seq<Entry>, c: Coord, now: nat)
  {
    h != [] && FailedAt(h[|h| - 1], c) && now < h[|h| - 1].end + COOLDOWN_US
  }

  // Within a minute of any failed try at a coordinate, another is refused exactly if the last thing
  // that happened was a failed try at it too: no other coordinate, no success and no reset.
  lemma RetryRefusedIff(h: seq<Entry>, i: nat, c: Coord, now: nat)
    requires InTime(h) && i < |h| && FailedAt(h[i], c)
    requires (forall k :: 0 <= k < |h| && h[k].Tried? ==> h[k].end <= now) && now < h[i].end + COOLDOWN_US
    ensures CoolingAfter(h, c, now) <==> FailedAt(h[|h| - 1], c)
  {
    hide Near;
    var n := |h| - 1;
    if FailedAt(h[n], c) && i < n {
      assert h[i].end <= h[n].start <= h[n].end;
    }
  }

  lemma SpacedAppend(h: seq<Entry>, e: Entry)
    requires Spaced(h) && InTime(h) && e.Tried? && e.start <= e.end
    requires forall i :: 0 <= i < |h| && h[i].Tried? ==> h[i].end <= e.start
    requires !CoolingAfter(h, e.c, e.start)
    ensures Spaced(h + [e]) && InTime(h + [e])
  {
    hide Near;
    var g, n := h + [e], |h|;
    forall i, j | 0 <= i < j < |g| && g[j].Tried? && FailedAt(g[i], g[j].c) && Undisturbed(g, i, j)
      ensures g[j].start >= g[i].end + COOLDOWN_US
    {
      if j < n {
        UndisturbedPrefix(h, e, i, j);
      } else {
        assert i < n - 1 ==> FailedAt(g[n - 1], e.c);
      }
    }
  }

  lemma UndisturbedPrefix(h: seq<Entry>, e: Entry, i: nat, j: nat)
    requires i < j < |h| && h[j].Tried? && Undisturbed(h + [e], i, j)
    ensures Undisturbed(h, i, j)
  {
    assert forall k :: 0 <= k < |h| ==> (h + [e])[k] == h[k];
  }

  lemma SpacedReset(h: seq<Entry>)
    requires Spaced(h) && InTime(h)
    ensures Spaced(h + [Reset]) && InTime(h + [Reset])
  {
    hide Near;
    var g := h + [Reset];
    forall i, j | 0 <= i < j < |g| && g[j].Tried? && FailedAt(g[i], g[j].c) && Undisturbed(g, i, j)
      ensures g[j].start >= g[i].end + COOLDOWN_US
    {
      UndisturbedPrefix(h, Reset, i, j);
    }
  }

  datatype CallEnv = CallEnv(
    now: nat, done: nat, undulation: Exchange, mode: Exchange, save: Exchange,
    nvsReads: bool, nvsWrites: bool)

  datatype SetupEnv = SetupEnv(setup: seq<Exchange>, mode: Exchange, save: Exchange, nvsReads: bool)

  // -------------------------------------------------------------- the firmware

  class Base {
    var ackedValid: bool
    var ackedCoord: Coord
    var failUs: nat
    var failCoord: Coord
    var stored: seq<Coord>
    var receiver: Receiver
    ghost var history: seq<Entry>
    ghost var sent: seq<Sent>

    // The latch tells the truth whenever the transaction lock is free.
    ghost predicate Truthful()
      reads this
    {
      && receiver == Play(sent) && SaneModes(sent)
      && (ackedValid ==> ModeKnown(sent) && receiver.base.Fixed? && receiver.base.at == Printed(ackedCoord))
    }

    // The failure latch is what the history ends in.
    ghost predicate CooldownKnown()
      reads this
    {
      && Spaced(history) && InTime(history)
      && (failUs != 0 <==> history != [] && history[|history| - 1].Tried? && !history[|history| - 1].ok)
      && (failUs != 0 ==> failUs == history[|history| - 1].end && failCoord == history[|history| - 1].c)
    }

    ghost predicate Released()
      reads this
    {
      Truthful() && CooldownKnown() && |stored| <= 1
    }

    // The clock does not go back.
    ghost predicate NotAfter(now: nat)
      reads this
    {
      forall i :: 0 <= i < |history| && history[i].Tried? ==> history[i].end <= now
    }

    constructor (r: Receiver)
      ensures Released() && NotAfter(0) && !ackedValid && receiver == r && history == [] && sent == [Restarted(r)]
    {
      ackedValid, ackedCoord := false, Coord(0.0, 0.0, 0.0);
      failUs, failCoord := 0, Coord(0.0, 0.0, 0.0);
      stored, receiver, history, sent := [], r, [], [Restarted(r)];
    }

    method SendAcked(cmd: Command, xs: Exchange) returns (ok: bool)
      requires receiver == Play(sent)
      modifies this`receiver, this`sent
      ensures ok == Acked(xs) && sent == old(sent) + [Issued(cmd, xs)] && receiver == Play(sent)
      ensures receiver == if Taken(xs) then Apply(old(receiver), cmd) else old(receiver)
      ensures ok ==> receiver == Apply(old(receiver), cmd)
    {
      hide Apply, Play;
      AckedIsTaken(xs);
      SentAppend(sent, Issued(cmd, xs));
      sent := sent + [Issued(cmd, xs)];
      var i := 0;
      ghost var taken := false;
      assert xs[0..] == xs;
      while i < |xs|
        invariant 0 <= i <= |xs| && sent == old(sent) + [Issued(cmd, xs)]
        invariant Acked(xs) == Acked(xs[i..]) && Taken(xs) == (taken || Taken(xs[i..]))
        invariant receiver == if taken then Apply(old(receiver), cmd) else old(receiver)
      {
        ApplyTwice(old(receiver), cmd);
        if xs[i].applied {
          receiver := Apply(receiver, cmd);
          taken := true;
        }
        if xs[i].verdict != Verdict.None {
          return xs[i].verdict == Ok;
        }
        assert xs[i..][1..] == xs[i + 1..];
        i := i + 1;
      }
      return false;
    }

    // Whatever the receiver is after the pulse, nothing from before is believed any more.
    method ResetPulse(after: Receiver)
      requires CooldownKnown() && |stored| <= 1 && SaneModes(sent)
      modifies this
      ensures Released() && !ackedValid && failUs == 0 && receiver == after && stored == old(stored)
      ensures history == old(history) + [Reset] && sent == old(sent) + [Restarted(after)]
    {
      hide Near;
      SpacedReset(history);
      SentAppend(sent, Restarted(after));
      receiver := after;
      ackedValid := false;
      failUs := 0;
      history := history + [Reset];
      sent := sent + [Restarted(after)];
    }

    method LoadFixedBase(works: bool) returns (found: bool, c: Coord)
      ensures found <==> works && |stored| > 0 && Valid(stored[0])
      ensures found ==> c == stored[0]
    {
      c := Coord(0.0, 0.0, 0.0);
      if !works || |stored| == 0 {
        return false, c;
      }
      c := stored[0];
      found := CoordValid(c) && HeightValid(c.h);
    }

    method SaveFixedBase(c: Coord, works: bool)
      modifies this`stored
      ensures stored == if works then [c] else old(stored)
    {
      if works {
        stored := [c];
      }
    }

    // The setup list never touches the base mode.
    method SendSetup(env: SetupEnv)
      requires receiver == Play(sent) && |env.setup| == SETUP_COMMANDS
      modifies this`receiver, this`sent
      ensures receiver == Play(sent) && receiver.base == old(receiver).base
      ensures ModeKnown(old(sent)) ==> ModeKnown(sent)
      ensures SaneModes(old(sent)) ==> SaneModes(sent)
      ensures Acked(env.setup[2]) ==> UndulationAcked(sent)
    {
      hide Play, ModeKnown, Acked, Taken, OnEarth;
      var i := 0;
      while i < SETUP_COMMANDS
        invariant receiver == Play(sent) && receiver.base == old(receiver).base
        invariant ModeKnown(old(sent)) ==> ModeKnown(sent)
        invariant SaneModes(old(sent)) ==> SaneModes(sent)
        invariant i > 2 && Acked(env.setup[2]) ==> UndulationAcked(sent)
      {
        // The third command of the list zeroes the undulation.
        var cmd := if i == 2 then Undulation else Setup(i);
        SentAppend(sent, Issued(cmd, env.setup[i]));
        ZeroAppend(sent, Issued(cmd, env.setup[i]));
        var _ := SendAcked(cmd, env.setup[i]);
        i := i + 1;
      }
    }

    // Boot and recovery: the stored coordinate, or a survey.
    method Configure(env: SetupEnv)
      requires Released() && |env.setup| == SETUP_COMMANDS
      modifies this`receiver, this`sent, this`ackedValid, this`ackedCoord
      ensures Released()
      ensures var restores := env.nvsReads && |stored| > 0 && Valid(stored[0]);
              && ackedValid == (restores && Acked(env.mode)) && (ackedValid ==> ackedCoord == stored[0])
              && (ackedValid && Acked(env.setup[2]) ==> ZeroKnown(sent))
    {
      hide Play, ModeKnown, ZeroKnown, UndulationAcked, Acked, Taken, Spaced, InTime, Rounded, OnEarth;
      SendSetup(env);
      var found, c := LoadFixedBase(env.nvsReads);
      ValidIffOnEarth(c);
      if found {
        SentAppend(sent, Issued(ModeBase(c), env.mode));
        ZeroAppend(sent, Issued(ModeBase(c), env.mode));
        var acked := SendAcked(ModeBase(c), env.mode);
        ackedValid := acked;
        if acked {
          ackedCoord := c;
        }
      } else {
        ackedValid := false;
        var _ := SendAcked(SurveyIn, env.mode);
      }
      SentAppend(sent, Issued(SaveConfig, env.save));
      ZeroAppend(sent, Issued(SaveConfig, env.save));
      var _ := SendAcked(SaveConfig, env.save);
    }

    method Recover(after: Receiver, env: SetupEnv)
      requires Released() && |env.setup| == SETUP_COMMANDS
      modifies this
      ensures Released() && history == old(history) + [Reset] && failUs == 0
    {
      hide Near, Play, ModeKnown, Spaced, InTime;
      ResetPulse(after);
      Configure(env);
    }

    // The latch already holds this coordinate.
    ghost predicate Latched(c: Coord)
      reads this
    {
      ackedValid && Near(ackedCoord, c)
    }

    method RefreshStored(c: Coord, env: CallEnv)
      requires Released() && Valid(c)
      modifies this`stored
      ensures Released()
      ensures env.nvsReads && env.nvsWrites ==> stored != [] && Near(stored[0], c)
    {
      hide Play, ModeKnown, Spaced, InTime, Rounded;
      var found, nv := LoadFixedBase(env.nvsReads);
      if !found || !Near(nv, c) {
        SaveFixedBase(c, env.nvsWrites);
        NearItself(c);
      }
    }

    method SetFixedBase(c: Coord, env: CallEnv) returns (ok: bool)
      requires Released() && NotAfter(env.now) && env.now < env.done
      modifies this
      ensures Released() && NotAfter(env.done)
      // True means that the receiver took the latched coordinate, as printed, as its base; what
      // it makes of the height is another matter.
      ensures ok ==> Latched(c) && receiver.base.Fixed? && receiver.base.at == Printed(ackedCoord)
      // Silent calls change neither receiver nor history.
      ensures !Valid(c) ==> !ok
      ensures Valid(c) && old(Latched(c)) ==> ok
      ensures Valid(c) && !old(Latched(c)) && CoolingAfter(old(history), c, env.now) ==> !ok
      ensures !Valid(c) || old(Latched(c)) || CoolingAfter(old(history), c, env.now)
              ==> sent == old(sent) && history == old(history)
      // A push that moves the latched coordinate by less than a nanodegree and half a millimetre is one.
      ensures Valid(c) && old(ackedValid) && old(Abs(ackedCoord.lat - c.lat)) < 0.000000001
              && old(Abs(ackedCoord.lon - c.lon)) < 0.000000001 && old(Abs(ackedCoord.h - c.h)) < 0.0005
              ==> ok && sent == old(sent) && history == old(history)
      // Otherwise one attempt is made, and the acknowledged mode alone settles the latch.
      ensures Valid(c) && !old(Latched(c)) && !CoolingAfter(old(history), c, env.now) ==>
                && ackedValid == Acked(env.mode) && (ackedValid ==> ackedCoord == c)
                && ok == (Acked(env.mode) && Acked(env.save))
                && history == old(history) + [Tried(c, env.now, env.done, ok)]
                && sent == old(sent) + Exchanged(c, env)
      // A true answer behind an attempt means that the receiver was told to keep it, and agreed.
      ensures ok && sent != old(sent) ==> sent[|sent| - 1] == Issued(SaveConfig, env.save) && Acked(env.save)
      // Its zeroing of the undulation, if answered, is known to be in force.
      ensures sent != old(sent) && Acked(env.undulation) && Acked(env.mode) ==> ZeroKnown(sent)
      ensures ok && env.nvsReads && env.nvsWrites ==> stored != [] && Near(stored[0], c)
    {
      hide Play, ModeKnown, ZeroKnown, Spaced, InTime, Rounded, Acked;
      ExchangedZero(sent, c, env);
      if !CoordValid(c) || !HeightValid(c.h) {
        return false;
      }
      if ackedValid && Near(ackedCoord, c) {
        RefreshStored(c, env);
        return true;
      }
      if failUs != 0 && Near(failCoord, c) && env.now - failUs < COOLDOWN_US {
        return false;
      }
      ok := Try(c, env);
    }

    method Try(c: Coord, env: CallEnv) returns (ok: bool)
      requires Released() && NotAfter(env.now) && Valid(c) && env.now < env.done
      requires !CoolingAfter(history, c, env.now)
      modifies this
      ensures Released() && NotAfter(env.done)
      ensures ackedValid == Acked(env.mode) && (ackedValid ==> ackedCoord == c)
      ensures ok == (Acked(env.mode) && Acked(env.save)) && (ok ==> Latched(c))
      ensures history == old(history) + [Tried(c, env.now, env.done, ok)]
      ensures sent == old(sent) + Exchanged(c, env)
      ensures ok && env.nvsWrites ==> stored == [c]
    {
      hide Acked, Taken, Rounded, Play, ModeKnown, Spaced, InTime, Near;
      NearItself(c);
      ok := Transact(c, env);
      if !ok {
        failUs, failCoord := env.done, c;
      } else {
        failUs := 0;
      }
      if ok {
        SaveFixedBase(c, env.nvsWrites);
      }
      SpacedAppend(history, Tried(c, env.now, env.done, ok));
      history := history + [Tried(c, env.now, env.done, ok)];
    }

    // The commands of one attempt, and the latch behind them.
    method Transact(c: Coord, env: CallEnv) returns (ok: bool)
      requires Truthful() && Valid(c)
      modifies this`receiver, this`sent, this`ackedValid, this`ackedCoord
      ensures Truthful()
      ensures ackedValid == Acked(env.mode) && (ackedValid ==> ackedCoord == c)
      ensures ok == (Acked(env.mode) && Acked(env.save))
      ensures sent == old(sent) + Exchanged(c, env)
    {
      hide Acked, Taken, Rounded, Play, ModeKnown, OnEarth;
      ValidIffOnEarth(c);
      var _ := SendAcked(Undulation, env.undulation);
      SentAppend(sent, Issued(ModeBase(c), env.mode));
      var acked := SendAcked(ModeBase(c), env.mode);
      ok := acked;
      if ok {
        SentAppend(sent, Issued(SaveConfig, env.save));
        ok := SendAcked(SaveConfig, env.save);
      }
      if acked {
        ackedValid, ackedCoord := true, c;
      } else {
        ackedValid := false;
      }
    }
  }

  // What one attempt sends.
  function Exchanged(c: Coord, env: CallEnv): seq<Sent>
  {
    [Issued(Undulation, env.undulation), Issued(ModeBase(c), env.mode)]
    + if Acked(env.mode) then [Issued(SaveConfig, env.save)] else []
  }

  lemma ExchangedZero(sent: seq<Sent>, c: Coord, env: CallEnv)
    ensures Acked(env.undulation) && Acked(env.mode) ==> ZeroKnown(sent + Exchanged(c, env))
  {
    hide Acked, ZeroKnown, UndulationAcked;
    var l1 := sent + [Issued(Undulation, env.undulation)];
    var l2 := l1 + [Issued(ModeBase(c), env.mode)];
    ZeroAppend(sent, Issued(Undulation, env.undulation));
    ZeroAppend(l1, Issued(ModeBase(c), env.mode));
    ZeroAppend(l2, Issued(SaveConfig, env.save));
    assert Acked(env.mode) ==> sent + Exchanged(c, env) == l2 + [Issued(SaveConfig, env.save)];
  }

  lemma NearItself(c: Coord)
    ensures Near(c, c)
  {
  }

  // ------------------------------------------------------------- the position

  // The height the receiver broadcasts, where its own undulation is `n`.
  function Height(mode: BaseMode, n: real): real
    requires mode.Fixed?
  {
    mode.at.h + if mode.undulationZero then 0.0 else n
  }

  predicate OnCoordinate(mode: BaseMode, c: Coord, n: real)
  {
    && mode.Fixed?
    && Abs(mode.at.lat - c.lat) < 0.0000000015 && Abs(mode.at.lon - c.lon) < 0.0000000015
    && Abs(Height(mode, n) - c.h) < 0.00055
  }

  // A receiver that took a latched coordinate is on the wanted one wherever it stands, if its
  // undulation was zero; if not, it is nowhere where the undulation is more than a millimetre.
  lemma OnCoordinateIff(mode: BaseMode, latched: Coord, c: Coord, n: real)
    requires mode.Fixed? && mode.at == Printed(latched) && Near(latched, c)
    ensures mode.undulationZero ==> OnCoordinate(mode, c, n)
    ensures Abs(n) > 0.0011 ==> (OnCoordinate(mode, c, n) <==> mode.undulationZero)
  {
    hide Printed, Near;
    PrintedWithinTolerance(latched, c);
  }

  // -------------------------------------------------------------- whole runs

  datatype Call = Push(c: Coord, env: CallEnv) | Recovery(after: Receiver, setup: SetupEnv)

  predicate CallsOk(calls: seq<Call>)
  {
    && (forall i :: 0 <= i < |calls| ==>
          match calls[i]
          case Push(_, env) => env.now < env.done
          case Recovery(_, setup) => |setup.setup| == SETUP_COMMANDS)
    && forall i, j :: 0 <= i < j < |calls| && calls[i].Push? && calls[j].Push? ==> calls[i].env.done <= calls[j].env.now
  }

  // What a true answer is worth, told from the base mode and from what was sent up to it: the
  // receiver is on the coordinate exactly if its undulation was zero when it took the command, and
  // the firmware can rely on that exactly if a zeroing was acknowledged since the last reset.
  ghost predicate Answered(mode: BaseMode, sent: seq<Sent>, c: Coord)
  {
    && mode.Fixed? && mode == Play(sent).base
    && (forall n :: Abs(n) > 0.0011 ==> (OnCoordinate(mode, c, n) <==> mode.undulationZero))
    && (mode.undulationZero ==> forall n :: OnCoordinate(mode, c, n))
    && (ZeroKnown(sent) ==> mode.undulationZero)
    && (ZeroKnown(sent) <==> forall other :: SameReplies(sent, other) ==> ZeroedMode(Play(other)))
  }

  lemma AnswerHolds(mode: BaseMode, sent: seq<Sent>, latched: Coord, c: Coord)
    requires ModeKnown(sent) && mode == Play(sent).base
    requires mode.Fixed? && mode.at == Printed(latched) && Near(latched, c)
    ensures Answered(mode, sent, c)
  {
    hide ModeKnown, ZeroKnown, Play, OnCoordinate, Printed, Near;
    forall n
      ensures mode.undulationZero ==> OnCoordinate(mode, c, n)
      ensures Abs(n) > 0.0011 ==> (OnCoordinate(mode, c, n) <==> mode.undulationZero)
    {
      OnCoordinateIff(mode, latched, c, n);
    }
    ZeroKnownIff(sent);
    LooksTheSame(sent);
  }

  lemma LooksTheSame(sent: seq<Sent>)
    ensures SameReplies(sent, sent)
  {
  }

  // Over any sequence of coordinate pushes and recoveries, with any replies, losses and storage
  // failures: what every true answer is worth, and the spacing of failed attempts.
  method Session(base: Base, calls: seq<Call>)
    returns (answers: seq<bool>, modes: seq<BaseMode>, ghost logs: seq<seq<Sent>>)
    requires base.Released() && base.NotAfter(0) && CallsOk(calls)
    modifies base
    ensures base.Released() && Spaced(base.history) && SaneModes(base.sent)
    ensures |answers| == |modes| == |logs| == |calls|
    ensures forall k :: 0 <= k < |calls| && calls[k].Push? && answers[k] ==> Answered(modes[k], logs[k], calls[k].c)
  {
    hide Answered, Printed, Near, Play, ModeKnown, Spaced, InTime;
    answers, modes, logs := [], [], [];
    ghost var last: nat := 0;
    var i := 0;
    while i < |calls|
      invariant 0 <= i <= |calls| && |answers| == |modes| == |logs| == i
      invariant base.Released() && base.NotAfter(last)
      invariant forall j :: i <= j < |calls| && calls[j].Push? ==> last <= calls[j].env.now
      invariant forall k :: 0 <= k < i && calls[k].Push? && answers[k] ==> Answered(modes[k], logs[k], calls[k].c)
    {
      var ok := false;
      match calls[i] {
        case Push(c, env) =>
          ok := base.SetFixedBase(c, env);
          last := env.done;
          if ok {
            AnswerHolds(base.receiver.base, base.sent, base.ackedCoord, c);
          }
        case Recovery(after, setup) => base.Recover(after, setup);
      }
      answers, modes, logs := answers + [ok], modes + [base.receiver.base], logs + [base.sent];
      i := i + 1;
    }
  }

  // --------------------------------------------------------- two failing runs

  const SILENT: Exchange := seq(ACK_RETRIES + 1, _ => Attempt(false, Verdict.None))
  const TAKEN: Exchange := seq(ACK_RETRIES + 1, _ => Attempt(true, Ok))

  lemma SilentAndTaken()
    ensures !Acked(SILENT) && !Taken(SILENT) && Acked(TAKEN) && Taken(TAKEN)
  {
    Silence(SILENT);
  }

  lemma {:induction false} Silence(xs: seq<Attempt>)
    requires forall i :: 0 <= i < |xs| ==> xs[i] == Attempt(false, Verdict.None)
    ensures !Acked(xs) && !Taken(xs)
  {
    if xs != [] {
      Silence(xs[1..]);
    }
  }

  // The zeroing is lost and everything else goes well: the call answers true, and where the
  // undulation is more than a millimetre the receiver is off by all of it.
  method LostZeroing(c: Coord) returns (ok: bool, mode: BaseMode)
    requires Valid(c)
    ensures ok && mode == Fixed(Printed(c), false)
    ensures forall n :: Abs(n) > 0.0011 ==> !OnCoordinate(mode, c, n)
  {
    hide Printed, Near, OnCoordinate, Spaced, InTime, Acked, Taken;
    SilentAndTaken();
    var base := new Base(Receiver(Unknown, false));
    ok := base.SetFixedBase(c, CallEnv(10, 11, SILENT, TAKEN, TAKEN, true, true));
    mode := base.receiver.base;
    LostZeroingPlay(base.sent, c);
    NearItself(c);
    forall n | Abs(n) > 0.0011 ensures !OnCoordinate(mode, c, n) {
      OnCoordinateIff(mode, c, c, n);
    }
  }

  lemma LostZeroingPlay(sent: seq<Sent>, c: Coord)
    requires sent == [Restarted(Receiver(Unknown, false)), Issued(Undulation, SILENT), Issued(ModeBase(c), TAKEN),
                      Issued(SaveConfig, TAKEN)]
    ensures Play(sent).base == Fixed(Printed(c), false)
  {
    hide Printed, Play, ModeKnown, Acked, Taken;
    SilentAndTaken();
    var l0: seq<Sent> := [];
    var l1 := l0 + [Restarted(Receiver(Unknown, false))];
    var l2 := l1 + [Issued(Undulation, SILENT)];
    var l3 := l2 + [Issued(ModeBase(c), TAKEN)];
    SentAppend(l0, Restarted(Receiver(Unknown, false)));
    SentAppend(l1, Issued(Undulation, SILENT));
    SentAppend(l2, Issued(ModeBase(c), TAKEN));
    SentAppend(l3, Issued(SaveConfig, TAKEN));
    assert sent == l3 + [Issued(SaveConfig, TAKEN)];
  }

  // Any other coordinate in between makes the firmware forget the failure: the first one is tried
  // again within the same minute, here after nineteen microseconds.
  method OtherCoordinateForgets(a: Coord, b: Coord) returns (base: Base)
    requires Valid(a) && Valid(b) && !Near(a, b) && !Near(b, a)
    ensures fresh(base) && base.Released()
    ensures base.history == [Tried(a, 10, 11, false), Tried(b, 20, 21, false), Tried(a, 30, 31, false)]
    ensures !Undisturbed(base.history, 0, 2)
  {
    hide Near, Spaced, InTime, Acked, Taken, Play, ModeKnown;
    SilentAndTaken();
    base := new Base(Receiver(Unknown, false));
    var ok := base.SetFixedBase(a, CallEnv(10, 11, SILENT, SILENT, SILENT, true, true));
    ok := base.SetFixedBase(b, CallEnv(20, 21, SILENT, SILENT, SILENT, true, true));
    ok := base.SetFixedBase(a, CallEnv(30, 31, SILENT, SILENT, SILENT, true, true));
    assert !FailedAt(base.history[1], a);
  }
}
