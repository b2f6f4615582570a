// The version a device runs, over installs, rollbacks and fallbacks: what the version comparison and
// the attempt budget together promise about the images that follow each other.
module OtaVersions {
  import opened OtaAttempts

  // What happened to the device: a download or an install over the version then running, or a
  // return to another image.
  datatype Mark =
    | Downloaded(version: string, over: string)
    | Installed(version: string, over: string)
    | Reverted(to: string)

  // `previous` is the image the bootloader would go back to while the running one is unconfirmed.
  datatype Device = Device(running: string, previous: Option<string>, log: Log, marks: seq<Mark>)

  datatype Turn =
    | BootCheck(env: BootEnv, applies: bool)
    | DailyPoll(published: Option<string>, nvsOpens: bool)
    | Confirm(nvsOpens: bool)
    | RollBack
    | FactoryImage(version: string)

  function Fresh(version: string): Device { Device(version, None, [], []) }

  function Next(d: Device, t: Turn): Device
  {
    match t
    case BootCheck(env, applies) =>
      var entries := BootEntries(d.log, d.running, env);
      if entries == [] then d
      else
        var v := env.published.value;
        var e := d.(log := d.log + entries, marks := d.marks + [Downloaded(v, d.running)]);
        if applies
        then e.(running := v, previous := Some(d.running), marks := e.marks + [Installed(v, d.running)])
        else e
    case DailyPoll(published, opens) => d.(log := d.log + PollEntries(d.log, d.running, published, opens))
    case Confirm(opens) =>
      if d.previous.None? then d
      else d.(previous := None, log := d.log + if opens then [Confirmed] else [])
    case RollBack =>
      if d.previous.None? then d
      else d.(running := d.previous.value, previous := None, marks := d.marks + [Reverted(d.previous.value)])
    case FactoryImage(v) => d.(running := v, previous := None, marks := d.marks + [Reverted(v)])
  }

  function Live(d: Device, turns: seq<Turn>): Device
    decreases |turns|
  {
    if turns == [] then d else Live(Next(d, turns[0]), turns[1..])
  }

  // ------------------------------------------------------ downloads are newer

  // The running version as the marks tell it.
  function RunningAfter(first: string, marks: seq<Mark>): string
  {
    if marks == [] then first
    else
      match marks[|marks| - 1]
      case Installed(v, _) => v
      case Reverted(to) => to
      case Downloaded(_, _) => RunningAfter(first, marks[..|marks| - 1])
  }

  // Everything downloaded or installed was newer than what was running at that moment.
  predicate Ascends(first: string, marks: seq<Mark>)
  {
    forall i :: 0 <= i < |marks| && !marks[i].Reverted? ==>
      marks[i].over == RunningAfter(first, marks[..i]) && Newer(marks[i].version, marks[i].over)
  }

  lemma MarkAppend(first: string, marks: seq<Mark>, m: Mark)
    ensures RunningAfter(first, marks + [m])
         == if m.Installed? then m.version else if m.Reverted? then m.to else RunningAfter(first, marks)
    ensures Ascends(first, marks)
         && (m.Reverted? || (m.over == RunningAfter(first, marks) && Newer(m.version, m.over)))
         ==> Ascends(first, marks + [m])
  {
    hide Newer;
    var all := marks + [m];
    assert all[..|marks|] == marks;
    assert forall i :: 0 <= i < |marks| ==> all[..i] == marks[..i] && all[i] == marks[i];
  }

  lemma NextAscends(first: string, d: Device, t: Turn)
    requires d.running == RunningAfter(first, d.marks) && Ascends(first, d.marks)
    ensures var e := Next(d, t); e.running == RunningAfter(first, e.marks) && Ascends(first, e.marks)
  {
    hide Newer, Ascends, RunningAfter, Attempts;
    match t
    case BootCheck(env, applies) =>
      if env.published.Some? {
        var v := env.published.value;
        MarkAppend(first, d.marks, Downloaded(v, d.running));
        MarkAppend(first, d.marks + [Downloaded(v, d.running)], Installed(v, d.running));
      }
    case RollBack =>
      if d.previous.Some? {
        MarkAppend(first, d.marks, Reverted(d.previous.value));
      }
    case FactoryImage(v) => MarkAppend(first, d.marks, Reverted(v));
    case _ =>
  }

  lemma {:induction false} LiveAscends(first: string, d: Device, turns: seq<Turn>)
    requires d.running == RunningAfter(first, d.marks) && Ascends(first, d.marks)
    ensures var e := Live(d, turns); e.running == RunningAfter(first, e.marks) && Ascends(first, e.marks)
    decreases |turns|
  {
    hide Ascends, RunningAfter, Next;
    if turns != [] {
      NextAscends(first, d, turns[0]);
      LiveAscends(first, Next(d, turns[0]), turns[1..]);
    }
  }

  // In every life of a device, whatever is published, fails, is rolled back or falls back: every
  // download and every install is newer than the version running at that moment.
  lemma DownloadsAreNewer(first: string, turns: seq<Turn>)
    ensures var d := Live(Fresh(first), turns);
            d.running == RunningAfter(first, d.marks) && Ascends(first, d.marks)
  {
    hide Newer;
    LiveAscends(first, Fresh(first), turns);
  }

  // ------------------------------------------------------- installs increase

  predicate AllParseable(first: string, marks: seq<Mark>)
  {
    && Parseable(first)
    && forall i :: 0 <= i < |marks| ==> Parseable(if marks[i].Reverted? then marks[i].to else marks[i].version)
  }

  predicate NoneReverted(marks: seq<Mark>, from: nat, to: nat)
    requires to <= |marks|
  {
    forall i :: from <= i < to ==> !marks[i].Reverted?
  }

  lemma {:induction false} RunningStays(first: string, marks: seq<Mark>, i: nat, n: nat)
    requires Ascends(first, marks) && AllParseable(first, marks)
    requires i < n <= |marks| && marks[i].Installed? && NoneReverted(marks, i, n)
    ensures var r := RunningAfter(first, marks[..n]);
            Parseable(r) && (r == marks[i].version || Newer(r, marks[i].version))
    decreases n
  {
    hide Newer, Parseable;
    assert marks[..n][..n - 1] == marks[..n - 1];
    if i < n - 1 {
      RunningStays(first, marks, i, n - 1);
      if marks[n - 1].Installed? && RunningAfter(first, marks[..n - 1]) != marks[i].version {
        NewerTransitive(marks[i].version, RunningAfter(first, marks[..n - 1]), marks[n - 1].version);
      }
    }
  }

  // Without a return to another image in between, a later install or download is strictly newer.
  lemma InstallsIncrease(first: string, turns: seq<Turn>, i: nat, j: nat)
    requires var marks := Live(Fresh(first), turns).marks;
             && AllParseable(first, marks) && i < j < |marks| && marks[i].Installed? && !marks[j].Reverted?
             && NoneReverted(marks, i, j)
    ensures var marks := Live(Fresh(first), turns).marks;
            Newer(marks[j].version, marks[i].version) && marks[j].version != marks[i].version
  {
    hide Newer, Parseable, Live, RunningAfter;
    var marks := Live(Fresh(first), turns).marks;
    DownloadsAreNewer(first, turns);
    RunningStays(first, marks, i, j);
    var r := RunningAfter(first, marks[..j]);
    if r != marks[i].version {
      NewerTransitive(marks[i].version, r, marks[j].version);
    } else {
      NewerTransitive(r, marks[j].version, r);
    }
  }

  // ------------------------------------------------ exactly without rollbacks

  // Index of the last install, or -1.
  function LastInstall(marks: seq<Mark>): (k: int)
    ensures -1 <= k < |marks|
    ensures k >= 0 ==> marks[k].Installed?
  {
    if marks == [] then -1
    else if marks[|marks| - 1].Installed? then |marks| - 1
    else LastInstall(marks[..|marks| - 1])
  }

  // Without a fallback to the factory image a device runs its last install, or, once rolled back,
  // what that install replaced.
  predicate LastOrReplaced(d: Device)
  {
    var k := LastInstall(d.marks);
    if k < 0 then d.previous == None && NoneReverted(d.marks, 0, |d.marks|)
    else if NoneReverted(d.marks, k, |d.marks|) then
      d.running == d.marks[k].version && d.previous in {None, Some(d.marks[k].over)}
    else d.running == d.marks[k].over && d.previous == None
  }

  lemma LastAppend(marks: seq<Mark>, m: Mark)
    ensures LastInstall(marks + [m]) == if m.Installed? then |marks| else LastInstall(marks)
  {
    assert (marks + [m])[..|marks|] == marks;
  }

  lemma RevertedAppend(marks: seq<Mark>, m: Mark, from: nat)
    requires from <= |marks|
    ensures NoneReverted(marks + [m], from, |marks| + 1) <==> NoneReverted(marks, from, |marks|) && !m.Reverted?
  {
    var all := marks + [m];
    assert all[|marks|] == m;
    assert forall i :: 0 <= i < |marks| ==> all[i] == marks[i];
  }

  lemma NextKeepsLast(d: Device, t: Turn)
    requires LastOrReplaced(d) && !t.FactoryImage?
    ensures LastOrReplaced(Next(d, t))
  {
    hide Newer, Attempts, LastInstall, NoneReverted;
    var k := LastInstall(d.marks);
    var from := if k < 0 then 0 else k;
    match t
    case BootCheck(env, applies) =>
      if env.published.Some? {
        var v := env.published.value;
        var more := d.marks + [Downloaded(v, d.running)];
        RevertedAppend(d.marks, Downloaded(v, d.running), from);
        LastAppend(d.marks, Downloaded(v, d.running));
        LastAppend(more, Installed(v, d.running));
        InstalledNotReverted(more, Installed(v, d.running));
      }
    case RollBack =>
      if d.previous.Some? {
        LastAppend(d.marks, Reverted(d.previous.value));
        RevertedAppend(d.marks, Reverted(d.previous.value), from);
      }
    case _ =>
  }

  lemma InstalledNotReverted(marks: seq<Mark>, m: Mark)
    requires m.Installed?
    ensures NoneReverted(marks + [m], |marks|, |marks| + 1)
  {
  }

  lemma {:induction false} LiveKeepsLast(d: Device, turns: seq<Turn>)
    requires LastOrReplaced(d) && forall i :: 0 <= i < |turns| ==> !turns[i].FactoryImage?
    ensures LastOrReplaced(Live(d, turns))
    decreases |turns|
  {
    hide LastOrReplaced, Next;
    if turns != [] {
      NextKeepsLast(d, turns[0]);
      LiveKeepsLast(Next(d, turns[0]), turns[1..]);
    }
  }

  // Whatever is published next is installed only above the last install, exactly if the device is
  // not running something older than that.
  lemma NextInstallAboveIff(last: string, running: string)
    requires Parseable(last) && Parseable(running)
    ensures (forall v :: Parseable(v) && Newer(v, running) ==> Newer(v, last)) <==> !Newer(last, running)
  {
    hide Newer, Parseable;
    SelfNotNewer(last);
    if !Newer(last, running) {
      forall v | Parseable(v) && Newer(v, running) ensures Newer(v, last) {
        NotBelow(last, running, v);
      }
    }
  }

  lemma SelfNotNewer(v: string)
    ensures !Newer(v, v)
  {
    hide Below, Parts, ScanDotted;
    BelowTotal(Parts(v), Parts(v), 0);
  }

  lemma NotBelow(last: string, running: string, v: string)
    requires Parseable(last) && Parseable(running) && Parseable(v)
    requires !Newer(last, running) && Newer(v, running)
    ensures Newer(v, last)
  {
    hide Below, Parts, ScanDotted;
    var x, y, z := Parts(last), Parts(running), Parts(v);
    BelowTotal(x, y, 0);
    if Below(x, y, 0) {
      BelowTransitive(x, y, z, 0);
    } else {
      assert x[0..] == x && y[0..] == y;
    }
  }

  // In every life: the next install is above the last one, whatever is published, exactly if nothing
  // was returned to since, or nothing older; without a factory fallback, exactly if the last install
  // was not rolled back.
  lemma InstallsIncreaseIff(first: string, turns: seq<Turn>)
    requires var d := Live(Fresh(first), turns); AllParseable(first, d.marks) && LastInstall(d.marks) >= 0
    ensures var d := Live(Fresh(first), turns);
            var k := LastInstall(d.marks);
            (forall v :: Parseable(v) && Newer(v, d.running) ==> Newer(v, d.marks[k].version))
            <==> (NoneReverted(d.marks, k, |d.marks|) || !Newer(d.marks[k].version, RunningAfter(first, d.marks)))
    ensures var d := Live(Fresh(first), turns);
            var k := LastInstall(d.marks);
            (forall i :: 0 <= i < |turns| ==> !turns[i].FactoryImage?) ==>
              (!Newer(d.marks[k].version, d.running) <==> NoneReverted(d.marks, k, |d.marks|))
  {
    hide Newer, Parseable, Live, LastInstall, RunningAfter;
    var d := Live(Fresh(first), turns);
    DownloadsAreNewer(first, turns);
    LastIsInstall(d.marks);
    var k := LastInstall(d.marks);
    SelfNotNewer(d.marks[k].version);
    RunningParseable(first, d.marks);
    NextInstallAboveIff(d.marks[k].version, d.running);
    if NoneReverted(d.marks, k, |d.marks|) {
      assert d.marks[..|d.marks|] == d.marks;
      RunningStays(first, d.marks, k, |d.marks|);
      StillAbove(d.marks[k].version, d.running);
    }
    if forall i :: 0 <= i < |turns| ==> !turns[i].FactoryImage? {
      NothingInstalled(first);
      LiveKeepsLast(Fresh(first), turns);
    }
  }

  lemma StillAbove(last: string, running: string)
    requires Parseable(last) && Parseable(running) && (running == last || Newer(running, last))
    ensures !Newer(last, running)
  {
    hide Newer, Parseable;
    SelfNotNewer(last);
    if running != last {
      NewerTransitive(last, running, last);
    }
  }

  lemma NothingInstalled(first: string)
    ensures LastOrReplaced(Fresh(first))
  {
  }

  lemma LastIsInstall(marks: seq<Mark>)
    ensures LastInstall(marks) >= 0 ==> LastInstall(marks) < |marks| && marks[LastInstall(marks)].Installed?
  {
  }

  lemma {:induction false} RunningParseable(first: string, marks: seq<Mark>)
    requires AllParseable(first, marks)
    ensures Parseable(RunningAfter(first, marks))
  {
    hide Parseable;
    if marks != [] {
      assert AllParseable(first, marks[..|marks| - 1]);
      RunningParseable(first, marks[..|marks| - 1]);
    }
  }

  // ------------------------------------------------------------ rollback loops

  function Offer(version: string): BootEnv { BootEnv(Some(version), true, true) }

  // A release that installs and is rolled back, n times over.
  function RollbackLoop(version: string, n: nat): seq<Turn>
  {
    if n == 0 then [] else [BootCheck(Offer(version), true), RollBack] + RollbackLoop(version, n - 1)
  }

  function CountInstalls(marks: seq<Mark>): nat
  {
    if marks == [] then 0
    else CountInstalls(marks[..|marks| - 1]) + if marks[|marks| - 1].Installed? then 1 else 0
  }

  lemma CountAppend(marks: seq<Mark>, m: Mark)
    ensures CountInstalls(marks + [m]) == CountInstalls(marks) + if m.Installed? then 1 else 0
  {
    assert (marks + [m])[..|marks|] == marks;
  }

  // One install over what is running, and nothing else.
  lemma InstallTurn(d: Device, version: string)
    requires Newer(version, d.running) && !Spent(d.log, version)
    ensures var e := Next(d, BootCheck(Offer(version), true));
            && e.running == version && e.previous == Some(d.running)
            && e.log == (d.log + [Booked(version)]) + [Download(version)]
            && CountInstalls(e.marks) == CountInstalls(d.marks) + 1
  {
    hide Newer, Spent, CountInstalls;
    CountAppend(d.marks, Downloaded(version, d.running));
    CountAppend(d.marks + [Downloaded(version, d.running)], Installed(version, d.running));
    assert d.log + [Booked(version), Download(version)] == (d.log + [Booked(version)]) + [Download(version)];
  }

  lemma LoopTurns(d: Device, version: string, n: nat)
    requires n > 0
    ensures Live(d, RollbackLoop(version, n))
         == Live(Next(Next(d, BootCheck(Offer(version), true)), RollBack), RollbackLoop(version, n - 1))
  {
    hide Next;
    var turns := RollbackLoop(version, n);
    var e := Next(d, turns[0]);
    assert turns[1..] == [RollBack] + RollbackLoop(version, n - 1);
    assert turns[1..][1..] == RollbackLoop(version, n - 1);
    assert Live(d, turns) == Live(e, turns[1..]) == Live(Next(e, RollBack), turns[1..][1..]);
  }

  function Left(log: Log, version: string): nat
  {
    if Attempts(log, version) >= MAX_OTA_ATTEMPTS then 0 else MAX_OTA_ATTEMPTS - Attempts(log, version)
  }

  // A release that is rolled back is newer again and installed again, as often as the budget allows:
  // three times for a version that can be read back, and every time for a longer one.
  lemma {:induction false} RollbackLoopInstalls(d: Device, version: string, n: nat)
    requires Newer(version, d.running) && d.previous == None
    ensures CountInstalls(Live(d, RollbackLoop(version, n)).marks)
         == CountInstalls(d.marks)
            + if |version| <= STORED_MAX && n > Left(d.log, version) then Left(d.log, version) else n
    decreases n
  {
    hide Newer, CountInstalls, Attempts;
    if n > 0 {
      LoopTurns(d, version, n);
      var e := Next(d, BootCheck(Offer(version), true));
      var f := Next(e, RollBack);
      if Spent(d.log, version) {
        assert e == d && f == d;
        RollbackLoopInstalls(d, version, n - 1);
      } else {
        InstallTurn(d, version);
        LogAppend(d.log, Booked(version));
        LogAppend(d.log + [Booked(version)], Download(version));
        CountAppend(e.marks, Reverted(d.running));
        RollbackLoopInstalls(f, version, n - 1);
      }
    }
  }

  // ------------------------------------------------------ versions without numbers

  // The channel changes between two versions, and every install is confirmed.
  function Alternating(next: string, after: string, n: nat): seq<Turn>
    decreases n
  {
    if n == 0 then [] else [BootCheck(Offer(next), true), Confirm(true)] + Alternating(after, next, n - 1)
  }

  lemma AlternatingTurns(d: Device, next: string, after: string, n: nat)
    requires n > 0
    ensures Live(d, Alternating(next, after, n))
         == Live(Next(Next(d, BootCheck(Offer(next), true)), Confirm(true)), Alternating(after, next, n - 1))
  {
    hide Next;
    var turns := Alternating(next, after, n);
    var e := Next(d, turns[0]);
    assert turns[1..] == [Confirm(true)] + Alternating(after, next, n - 1);
    assert turns[1..][1..] == Alternating(after, next, n - 1);
    assert Live(d, turns) == Live(e, turns[1..]) == Live(Next(e, Confirm(true)), turns[1..][1..]);
  }

  lemma {:induction false} BothWaysInstallsAlways(d: Device, next: string, n: nat)
    requires Newer(next, d.running) && Newer(d.running, next)
    requires Attempts(d.log, next) == 0
    ensures CountInstalls(Live(d, Alternating(next, d.running, n)).marks) == CountInstalls(d.marks) + n
    decreases n
  {
    hide Newer, CountInstalls, Attempts;
    if n > 0 {
      AlternatingTurns(d, next, d.running, n);
      InstallTurn(d, next);
      var e := Next(d, BootCheck(Offer(next), true));
      LogAppend(e.log, Confirmed);
      BothWaysInstallsAlways(Next(e, Confirm(true)), d.running, n - 1);
    }
  }

  // When the channel alternates between two versions a device follows it back and forth for ever
  // exactly if they differ and one of them holds no number.
  lemma AlternatingInstallsIff(a: string, b: string)
    ensures (forall n :: CountInstalls(Live(Fresh(a), Alternating(b, a, n)).marks) == n)
       <==> (a != b && !(Parseable(a) && Parseable(b)))
  {
    hide Newer, Parseable, CountInstalls, Live, Next;
    NewerBothWaysIff(a, b);
    NothingYet(b);
    NoInstalls();
    if Newer(a, b) && Newer(b, a) {
      forall n ensures CountInstalls(Live(Fresh(a), Alternating(b, a, n)).marks) == n {
        BothWaysInstallsAlways(Fresh(a), b, n);
      }
    } else {
      SecondFails(a, b);
      assert CountInstalls(Live(Fresh(a), Alternating(b, a, 2)).marks) != 2;
    }
  }

  lemma NoInstalls()
    ensures CountInstalls([]) == 0
  {
  }

  // At most one of the first two boots installs anything.
  lemma SecondFails(a: string, b: string)
    requires !(Newer(a, b) && Newer(b, a))
    ensures CountInstalls(Live(Fresh(a), Alternating(b, a, 2)).marks) < 2
  {
    hide Newer;
    NoInstalls();
    AlternatingTurns(Fresh(a), b, a, 2);
    var e := Next(Next(Fresh(a), BootCheck(Offer(b), true)), Confirm(true));
    AlternatingTurns(e, a, b, 1);
    OneInstall(Fresh(a), b);
    OneInstall(e, a);
    SelfNotNewer(a);
    var g := Next(Next(e, BootCheck(Offer(a), true)), Confirm(true));
    assert Live(g, []) == g;
  }

  // One offer and its confirmation install at most once, and only what is newer.
  lemma OneInstall(d: Device, version: string)
    ensures var e := Next(Next(d, BootCheck(Offer(version), true)), Confirm(true));
            && CountInstalls(e.marks) <= CountInstalls(d.marks) + (if Newer(version, d.running) then 1 else 0)
            && (e.running == d.running || e.running == version)
            && (CountInstalls(e.marks) == CountInstalls(d.marks) || e.running == version)
  {
    hide Newer, CountInstalls, Attempts;
    if Newer(version, d.running) && !Spent(d.log, version) {
      InstallTurn(d, version);
    }
  }
}
