// The recovery ladder: which silences of receiver, caster and link are acted on, how often, and
// when the device is restarted. Times are microseconds since boot.
module Supervisor {

  const SECOND: nat := 1_000_000
  const GRACE_S: nat := 30
  const TH_GNSS_S: nat := 10
  const TH_CASTER_S: nat := 30
  const TH_LINK_S: nat := 60
  const TH_WEDGE_S: nat := 120
  const DEB_GNSS_S: nat := 20
  const DEB_CASTER_S: nat := 15
  const DEB_LINK_S: nat := 30
  const HEAP_FLOOR_B: nat := 12 * 1024
  const HEAP_LOW_S: nat := 15

  function Seconds(us: nat): nat { us / SECOND }

  lemma SecondsAtLeast(us: nat, n: nat)
    ensures Seconds(us) >= n <==> us >= n * SECOND
  {
  }

  // ----------------------------------------------------------------- progress

  // One report of the send path: a completed handshake (0) or a number of bytes.
  datatype Note = Note(at: nat, bytes: int)

  // The time that counts as the caster's last progress: the last positive send, or, before any,
  // the first handshake.
  function Progress(notes: seq<Note>): nat
  {
    if notes == [] then 0
    else
      var before, n := notes[..|notes| - 1], notes[|notes| - 1];
      if n.bytes > 0 || before == [] then n.at else Progress(before)
  }

  lemma ProgressNext(notes: seq<Note>, n: Note)
    ensures Progress(notes + [n]) == if n.bytes > 0 || notes == [] then n.at else Progress(notes)
  {
    assert (notes + [n])[..|notes|] == notes;
  }

  // Before any send it is the first handshake that arms it.
  lemma ArmedByHandshake(notes: seq<Note>)
    requires notes != [] && forall i :: 0 <= i < |notes| ==> notes[i].bytes <= 0
    ensures Progress(notes) == notes[0].at
  {
    hide Progress;
    ProgressNext([], notes[0]);
    HandshakesNeverMove([notes[0]], notes[1..]);
    assert [] + [notes[0]] == [notes[0]] && notes == [notes[0]] + notes[1..];
  }

  // Once armed, no number of bare handshakes moves it.
  lemma {:induction false} HandshakesNeverMove(notes: seq<Note>, more: seq<Note>)
    requires notes != [] && forall i :: 0 <= i < |more| ==> more[i].bytes <= 0
    ensures Progress(notes + more) == Progress(notes)
  {
    if more == [] {
      assert notes + more == notes;
    } else {
      var rest := more[..|more| - 1];
      HandshakesNeverMove(notes, rest);
      assert notes + more == (notes + rest) + [more[|more| - 1]];
      ProgressNext(notes + rest, more[|more| - 1]);
    }
  }

  // It is the last positive send, as found by looking at all of them.
  lemma {:induction false} ProgressIsLastSend(notes: seq<Note>, k: nat)
    requires k < |notes| && notes[k].bytes > 0 && forall i :: k < i < |notes| ==> notes[i].bytes <= 0
    ensures Progress(notes) == notes[k].at
  {
    var head := notes[..k];
    assert notes == (head + [notes[k]]) + notes[k + 1..];
    ProgressNext(head, notes[k]);
    HandshakesNeverMove(head + [notes[k]], notes[k + 1..]);
  }

  // One report of the link: an address was obtained, or lost.
  datatype Ip = Ip(at: nat, up: bool)

  // The last time an address was obtained.
  function LastUp(ips: seq<Ip>): nat
  {
    if ips == [] then 0
    else if ips[|ips| - 1].up then ips[|ips| - 1].at
    else LastUp(ips[..|ips| - 1])
  }

  predicate EverUp(ips: seq<Ip>) { exists i :: 0 <= i < |ips| && ips[i].up }

  lemma IpNext(ips: seq<Ip>, e: Ip)
    ensures LastUp(ips + [e]) == (if e.up then e.at else LastUp(ips)) && (EverUp(ips + [e]) <==> e.up || EverUp(ips))
  {
    var all := ips + [e];
    assert all[..|ips|] == ips && all[|ips|] == e;
    if EverUp(ips) {
      var i :| 0 <= i < |ips| && ips[i].up;
      assert all[i].up;
    }
    if e.up {
      assert all[|ips|].up;
    }
  }

  // Checks with low memory in a row at the end.
  function LowRun(heap: seq<bool>): nat
  {
    if heap == [] || !heap[|heap| - 1] then 0 else LowRun(heap[..|heap| - 1]) + 1
  }

  lemma LowRunNext(heap: seq<bool>, low: bool)
    ensures LowRun(heap + [low]) == if low then LowRun(heap) + 1 else 0
  {
    assert (heap + [low])[..|heap|] == heap;
  }

  lemma {:induction false} LowRunIsTail(heap: seq<bool>, n: nat)
    requires n <= |heap|
    ensures LowRun(heap) >= n <==> forall i :: |heap| - n <= i < |heap| ==> heap[i]
  {
    if n > 0 {
      if heap[|heap| - 1] {
        LowRunIsTail(heap[..|heap| - 1], n - 1);
      }
    }
  }

  // ------------------------------------------------------------------ pacing

  // The k-th action of a rung comes no earlier than the grace period and k-1 debounces.
  predicate Paced(acts: seq<nat>, debounce: nat)
  {
    forall k :: 0 <= k < |acts| ==> acts[k] >= Earliest(k, debounce)
  }

  function Earliest(k: nat, debounce: nat): nat { (GRACE_S + k * debounce) * SECOND }

  lemma PacedNext(acts: seq<nat>, debounce: nat, t: nat)
    requires Paced(acts, debounce) && t >= GRACE_S * SECOND
    requires acts != [] ==> t >= acts[|acts| - 1] + debounce * SECOND
    ensures Paced(acts + [t], debounce)
  {
    var n := |acts|;
    if n > 0 {
      assert acts[n - 1] >= Earliest(n - 1, debounce);
      assert (n - 1) * debounce + debounce == n * debounce;
    }
    assert t >= Earliest(n, debounce);
  }

  // --------------------------------------------------------------- the device

  datatype Reboot = NoReboot | HeapExhausted | Wedged

  // What one pass reads: the clock for its judgement and at each rung's action, in that order.
  datatype Pass = Pass(now: nat, atLink: nat, atCaster: nat, atGnss: nat, heap: nat)

  predicate InOrder(p: Pass) { p.now <= p.atLink <= p.atCaster <= p.atGnss }

  datatype Report = Report(reboot: Reboot, wifi: bool, caster: bool, gnss: bool)

  class Watch {
    var tGnss: nat
    var tCaster: nat
    var tIp: nat
    var gnssSeen: bool
    var casterSeen: bool
    var ipSeen: bool
    var linkUp: bool
    var recGnss: nat
    var recCaster: nat
    var recWifi: nat
    var reboots: nat
    var lastGnssAct: nat
    var lastCasterAct: nat
    var lastLinkAct: nat
    var heapLowStreak: nat
    const recoverGnss: bool
    const recoverCaster: bool
    const recoverWifi: bool
    ghost var rx: seq<nat>
    ghost var ips: seq<Ip>
    ghost var notes: seq<Note>
    ghost var heap: seq<bool>
    ghost var gnssActs: seq<nat>
    ghost var casterActs: seq<nat>
    ghost var wifiActs: seq<nat>

    ghost predicate RungOk(acts: seq<nat>, count: nat, last: nat, debounce: nat)
    {
      && |acts| == count && Paced(acts, debounce)
      && last == (if acts == [] then 0 else acts[|acts| - 1])
    }

    ghost predicate Valid()
      reads this
    {
      && RungOk(gnssActs, recGnss, lastGnssAct, DEB_GNSS_S)
      && RungOk(casterActs, recCaster, lastCasterAct, DEB_CASTER_S)
      && RungOk(wifiActs, recWifi, lastLinkAct, DEB_LINK_S)
      && gnssSeen == (rx != []) && tGnss == (if rx == [] then 0 else rx[|rx| - 1])
      && casterSeen == (notes != []) && tCaster == Progress(notes)
      && ipSeen == EverUp(ips) && tIp == LastUp(ips) && linkUp == (ips != [] && ips[|ips| - 1].up)
      && heapLowStreak == LowRun(heap)
    }

    ghost predicate NotAfter(now: nat)
      reads this
    {
      && tGnss <= now && tCaster <= now && tIp <= now
      && lastGnssAct <= now && lastCasterAct <= now && lastLinkAct <= now
    }

    constructor (gnss: bool, caster: bool, wifi: bool)
      ensures Valid() && NotAfter(0) && rx == [] && notes == [] && ips == [] && heap == []
      ensures recoverGnss == gnss && recoverCaster == caster && recoverWifi == wifi
      ensures gnssActs == [] && casterActs == [] && wifiActs == []
    {
      tGnss, tCaster, tIp, gnssSeen, casterSeen, ipSeen, linkUp := 0, 0, 0, false, false, false, false;
      recGnss, recCaster, recWifi, reboots := 0, 0, 0, 0;
      lastGnssAct, lastCasterAct, lastLinkAct, heapLowStreak := 0, 0, 0, 0;
      recoverGnss, recoverCaster, recoverWifi := gnss, caster, wifi;
      rx, ips, notes, heap, gnssActs, casterActs, wifiActs := [], [], [], [], [], [], [];
    }

    method NoteGnssRx(now: nat)
      requires Valid()
      modifies this`tGnss, this`gnssSeen, this`rx
      ensures Valid() && rx == old(rx) + [now]
    {
      hide Progress, LastUp, EverUp, RungOk, LowRun;
      tGnss, gnssSeen := now, true;
      rx := rx + [now];
    }

    method NoteCasterTx(now: nat, bytes: int)
      requires Valid()
      modifies this`tCaster, this`casterSeen, this`notes
      ensures Valid() && notes == old(notes) + [Note(now, bytes)]
    {
      hide Progress, LastUp, EverUp, RungOk, LowRun;
      ProgressNext(notes, Note(now, bytes));
      if bytes > 0 {
        tCaster, casterSeen := now, true;
      } else if !casterSeen {
        tCaster, casterSeen := now, true;
      }
      notes := notes + [Note(now, bytes)];
    }

    method NoteStaIp(now: nat, up: bool)
      requires Valid()
      modifies this`tIp, this`ipSeen, this`linkUp, this`ips
      ensures Valid() && ips == old(ips) + [Ip(now, up)]
    {
      hide Progress, LastUp, EverUp, RungOk, LowRun;
      IpNext(ips, Ip(now, up));
      ips := ips + [Ip(now, up)];
      if up {
        tIp, ipSeen, linkUp := now, true, true;
      } else {
        linkUp := false;
      }
    }

    // How long each part has been silent at a time, as the ladder sees it.
    function GnssSilence(now: nat): nat
      requires tGnss <= now
      reads this`tGnss, this`gnssSeen
    {
      if gnssSeen then Seconds(now - tGnss) else Seconds(now)
    }

    function CasterSilence(now: nat): nat
      requires tCaster <= now
      reads this`tCaster, this`casterSeen
    {
      if casterSeen then Seconds(now - tCaster) else 0
    }

    function IpDown(now: nat): nat
      requires tIp <= now
      reads this`tIp, this`ipSeen, this`linkUp
    {
      if !linkUp && ipSeen then Seconds(now - tIp) else 0
    }

    // No frame came in the last `s` seconds: none since the last one, or none since power-on.
    ghost predicate Deaf(now: nat, s: nat)
      reads this`rx
    {
      now >= (if rx == [] then 0 else rx[|rx| - 1]) + s * SECOND
    }

    // The caster was tried, and made no progress in the last `s` seconds.
    ghost predicate Mute(now: nat, s: nat)
      reads this`notes
    {
      notes != [] && now >= Progress(notes) + s * SECOND
    }

    // The address is lost, and the last one was obtained `s` seconds ago or longer.
    ghost predicate Offline(now: nat, s: nat)
      reads this`ips
    {
      EverUp(ips) && !ips[|ips| - 1].up && now >= LastUp(ips) + s * SECOND
    }

    // What the ladder's three ages say about the reports it was given.
    lemma SilencesMean(now: nat, s: nat)
      requires Valid() && NotAfter(now) && s > 0
      ensures GnssSilence(now) >= s <==> Deaf(now, s)
      ensures CasterSilence(now) >= s <==> Mute(now, s)
      ensures IpDown(now) >= s <==> Offline(now, s)
    {
      hide Progress, LowRun, Paced, LastUp;
      SecondsAtLeast(now - tGnss, s);
      SecondsAtLeast(now, s);
      SecondsAtLeast(now - tCaster, s);
      SecondsAtLeast(now - tIp, s);
    }

    method CheckHeap(free: nat) returns (exhausted: bool)
      requires Valid()
      modifies this`heapLowStreak, this`heap
      ensures Valid() && heap == old(heap) + [free < HEAP_FLOOR_B]
      ensures exhausted <==> LowRun(heap) >= HEAP_LOW_S
    {
      hide Progress, Paced, LowRun;
      LowRunNext(heap, free < HEAP_FLOOR_B);
      heap := heap + [free < HEAP_FLOOR_B];
      if free < HEAP_FLOOR_B {
        heapLowStreak := heapLowStreak + 1;
      } else {
        heapLowStreak := 0;
        NoneLow(heap);
      }
      exhausted := heapLowStreak >= HEAP_LOW_S;
    }

    // One rung each: act on a fault, but not sooner than the debounce after the last action.
    method LinkRung(fault: bool, at: nat) returns (acted: bool)
      requires Valid() && lastLinkAct <= at && at >= GRACE_S * SECOND
      modifies this`recWifi, this`lastLinkAct, this`wifiActs
      ensures Valid() && lastLinkAct <= at
      ensures acted <==> fault && recoverWifi && at >= old(lastLinkAct) + DEB_LINK_S * SECOND
      ensures wifiActs == old(wifiActs) + if acted then [at] else []
    {
      hide Progress, Paced, LowRun;
      if fault && recoverWifi && Seconds(at - lastLinkAct) >= DEB_LINK_S {
        PacedNext(wifiActs, DEB_LINK_S, at);
        wifiActs := wifiActs + [at];
        lastLinkAct, recWifi := at, recWifi + 1;
        return true;
      }
      return false;
    }

    method CasterRung(fault: bool, at: nat) returns (acted: bool)
      requires Valid() && lastCasterAct <= at && at >= GRACE_S * SECOND
      modifies this`recCaster, this`lastCasterAct, this`casterActs
      ensures Valid() && lastCasterAct <= at
      ensures acted <==> fault && recoverCaster && at >= old(lastCasterAct) + DEB_CASTER_S * SECOND
      ensures casterActs == old(casterActs) + if acted then [at] else []
    {
      hide Progress, Paced, LowRun;
      if fault && recoverCaster && Seconds(at - lastCasterAct) >= DEB_CASTER_S {
        PacedNext(casterActs, DEB_CASTER_S, at);
        casterActs := casterActs + [at];
        lastCasterAct, recCaster := at, recCaster + 1;
        return true;
      }
      return false;
    }

    method GnssRung(fault: bool, at: nat) returns (acted: bool)
      requires Valid() && lastGnssAct <= at && at >= GRACE_S * SECOND
      modifies this`recGnss, this`lastGnssAct, this`gnssActs
      ensures Valid() && lastGnssAct <= at
      ensures acted <==> fault && recoverGnss && at >= old(lastGnssAct) + DEB_GNSS_S * SECOND
      ensures gnssActs == old(gnssActs) + if acted then [at] else []
    {
      hide Progress, Paced, LowRun;
      if fault && recoverGnss && Seconds(at - lastGnssAct) >= DEB_GNSS_S {
        PacedNext(gnssActs, DEB_GNSS_S, at);
        gnssActs := gnssActs + [at];
        lastGnssAct, recGnss := at, recGnss + 1;
        return true;
      }
      return false;
    }

    method Judge(now: nat) returns (gnssFault: bool, casterFault: bool, linkFault: bool, wedged: bool)
      requires Valid() && NotAfter(now)
      ensures gnssFault <==> Deaf(now, 10)
      ensures casterFault <==> Mute(now, 30)
      ensures linkFault <==> Offline(now, 60)
      ensures wedged <==> Mute(now, 120) && (Deaf(now, 120) || Offline(now, 120))
    {
      hide Seconds, Progress, RungOk, LowRun, Deaf, Offline, LastUp;
      SilencesMean(now, 10);
      SilencesMean(now, 30);
      SilencesMean(now, 60);
      SilencesMean(now, 120);
      var gnssSilent := GnssSilence(now);
      gnssFault := gnssSilent >= TH_GNSS_S;
      var casterSilent := CasterSilence(now);
      casterFault := casterSeen && casterSilent >= TH_CASTER_S;
      var ipDown := IpDown(now);
      linkFault := ipSeen && !linkUp && ipDown >= TH_LINK_S;
      wedged := casterFault && casterSilent >= TH_WEDGE_S && (gnssSilent >= TH_WEDGE_S || ipDown >= TH_WEDGE_S);
    }

    method CountReboot()
      requires Valid()
      modifies this`reboots
      ensures Valid() && reboots == old(reboots) + 1
    {
      hide Progress, RungOk, LowRun;
      reboots := reboots + 1;
    }

    method Climb(p: Pass, linkFault: bool, casterFault: bool, gnssFault: bool)
      returns (wifi: bool, caster: bool, gnss: bool)
      requires Valid() && InOrder(p) && NotAfter(p.now) && p.now >= GRACE_S * SECOND
      modifies this`recGnss, this`recCaster, this`recWifi, this`lastGnssAct, this`lastCasterAct,
               this`lastLinkAct, this`gnssActs, this`casterActs, this`wifiActs
      ensures Valid() && NotAfter(p.atGnss)
      ensures wifi <==> linkFault && recoverWifi && p.atLink >= old(lastLinkAct) + DEB_LINK_S * SECOND
      ensures caster <==> casterFault && recoverCaster && p.atCaster >= old(lastCasterAct) + DEB_CASTER_S * SECOND
      ensures gnss <==> gnssFault && recoverGnss && p.atGnss >= old(lastGnssAct) + DEB_GNSS_S * SECOND
      ensures wifiActs == old(wifiActs) + if wifi then [p.atLink] else []
      ensures casterActs == old(casterActs) + if caster then [p.atCaster] else []
      ensures gnssActs == old(gnssActs) + if gnss then [p.atGnss] else []
    {
      hide Valid;
      wifi := LinkRung(linkFault, p.atLink);
      caster := CasterRung(casterFault, p.atCaster);
      gnss := GnssRung(gnssFault, p.atGnss);
    }

    // One pass of the ladder. After a reboot nothing else happens in it.
    method Tick(p: Pass) returns (r: Report)
      requires Valid() && InOrder(p) && NotAfter(p.now)
      modifies this`recGnss, this`recCaster, this`recWifi, this`reboots, this`lastGnssAct, this`lastCasterAct,
               this`lastLinkAct, this`heapLowStreak, this`heap, this`gnssActs, this`casterActs, this`wifiActs
      ensures Valid() && NotAfter(p.atGnss)
      ensures p.now < GRACE_S * SECOND ==> r == Report(NoReboot, false, false, false) && heap == old(heap)
      ensures p.now >= GRACE_S * SECOND ==>
        && heap == old(heap) + [p.heap < HEAP_FLOOR_B]
        && (r.reboot == HeapExhausted <==> LowRun(heap) >= HEAP_LOW_S)
        && (r.reboot == Wedged <==> LowRun(heap) < HEAP_LOW_S && Mute(p.now, 120)
                                    && (Deaf(p.now, 120) || Offline(p.now, 120)))
        && (r.wifi <==> r.reboot == NoReboot && Offline(p.now, 60) && recoverWifi
                        && p.atLink >= old(lastLinkAct) + DEB_LINK_S * SECOND)
        && (r.caster <==> r.reboot == NoReboot && Mute(p.now, 30) && recoverCaster
                          && p.atCaster >= old(lastCasterAct) + DEB_CASTER_S * SECOND)
        && (r.gnss <==> r.reboot == NoReboot && Deaf(p.now, 10) && recoverGnss
                        && p.atGnss >= old(lastGnssAct) + DEB_GNSS_S * SECOND)
      ensures wifiActs == old(wifiActs) + if r.wifi then [p.atLink] else []
      ensures casterActs == old(casterActs) + if r.caster then [p.atCaster] else []
      ensures gnssActs == old(gnssActs) + if r.gnss then [p.atGnss] else []
      ensures reboots == old(reboots) + if r.reboot == NoReboot then 0 else 1
    {
      hide Valid, Seconds, LowRun, GnssSilence, CasterSilence, IpDown, Deaf, Mute, Offline, RungOk;
      r := Report(NoReboot, false, false, false);
      SecondsAtLeast(p.now, GRACE_S);
      if Seconds(p.now) < GRACE_S {
        return;
      }
      var exhausted := CheckHeap(p.heap);
      if exhausted {
        CountReboot();
        return r.(reboot := HeapExhausted);
      }
      var gnssFault, casterFault, linkFault, wedged := Judge(p.now);
      if wedged {
        CountReboot();
        return r.(reboot := Wedged);
      }
      var wifi, caster, gnss := Climb(p, linkFault, casterFault, gnssFault);
      r := Report(NoReboot, wifi, caster, gnss);
    }
  }

  lemma NoneLow(heap: seq<bool>)
    requires heap != [] && !heap[|heap| - 1]
    ensures LowRun(heap) == 0
  {
  }

  // However many handshakes follow the last positive send, from thirty seconds on the caster
  // counts as silent.
  lemma {:induction false} DeadCasterIsSeen(notes: seq<Note>, k: nat, now: nat)
    requires k < |notes| && notes[k].bytes > 0 && forall i :: k < i < |notes| ==> notes[i].bytes <= 0
    requires now >= notes[k].at + TH_CASTER_S * SECOND
    ensures Progress(notes) <= now && Seconds(now - Progress(notes)) >= TH_CASTER_S
  {
    ProgressIsLastSend(notes, k);
  }

  // -------------------------------------------------------------- whole runs

  datatype Event = GnssRx(at: nat) | CasterTx(at: nat, bytes: int) | StaIp(at: nat, up: bool) | Check(p: Pass)

  function Begins(e: Event): nat { if e.Check? then e.p.now else e.at }

  function Ends(e: Event): nat { if e.Check? then e.p.atGnss else e.at }

  // Clock readings never go back.
  predicate InTime(events: seq<Event>)
  {
    && (forall i :: 0 <= i < |events| && events[i].Check? ==> InOrder(events[i].p))
    && (forall i :: 0 <= i < |events| - 1 ==> Ends(events[i]) <= Begins(events[i + 1]))
  }

  // The reports in a run: times of frames, of sends and handshakes, and of addresses.
  function Frames(events: seq<Event>): seq<nat>
  {
    if events == [] then []
    else
      var e := events[|events| - 1];
      Frames(events[..|events| - 1]) + if e.GnssRx? then [e.at] else []
  }

  function Sends(events: seq<Event>): seq<Note>
  {
    if events == [] then []
    else
      var e := events[|events| - 1];
      Sends(events[..|events| - 1]) + if e.CasterTx? then [Note(e.at, e.bytes)] else []
  }

  function Addresses(events: seq<Event>): seq<Ip>
  {
    if events == [] then []
    else
      var e := events[|events| - 1];
      Addresses(events[..|events| - 1]) + if e.StaIp? then [Ip(e.at, e.up)] else []
  }

  lemma ReportsNext(events: seq<Event>, e: Event)
    ensures Frames(events + [e]) == Frames(events) + if e.GnssRx? then [e.at] else []
    ensures Sends(events + [e]) == Sends(events) + if e.CasterTx? then [Note(e.at, e.bytes)] else []
    ensures Addresses(events + [e]) == Addresses(events) + if e.StaIp? then [Ip(e.at, e.up)] else []
  {
    assert (events + [e])[..|events|] == events;
  }

  // The watch knows exactly the reports of the run.
  ghost predicate Heeds(w: Watch, events: seq<Event>)
    reads w
  {
    w.rx == Frames(events) && w.notes == Sends(events) && w.ips == Addresses(events)
  }

  method Handle(w: Watch, e: Event, ghost before: seq<Event>)
    requires w.Valid() && w.NotAfter(Begins(e)) && (e.Check? ==> InOrder(e.p)) && Heeds(w, before)
    modifies w
    ensures w.Valid() && w.NotAfter(Ends(e)) && Heeds(w, before + [e])
  {
    hide Progress, LowRun, Paced, LastUp, EverUp, Frames, Sends, Addresses, Earliest;
    ReportsNext(before, e);
    match e {
      case GnssRx(at) => w.NoteGnssRx(at);
      case CasterTx(at, bytes) => NoteKeepsTime(w, at, bytes);
      case StaIp(at, up) =>
        IpNext(w.ips, Ip(at, up));
        w.NoteStaIp(at, up);
      case Check(p) => var _ := w.Tick(p);
    }
  }

  method NoteKeepsTime(w: Watch, at: nat, bytes: int)
    requires w.Valid() && w.NotAfter(at)
    modifies w`tCaster, w`casterSeen, w`notes
    ensures w.Valid() && w.NotAfter(at) && w.notes == old(w.notes) + [Note(at, bytes)]
  {
    ProgressNext(w.notes, Note(at, bytes));
    w.NoteCasterTx(at, bytes);
  }

  // Over any run from power-on: no rung acts before the grace period is over, or more often than
  // its debounce allows, whatever the reports say.
  method Patrol(events: seq<Event>) returns (w: Watch)
    requires InTime(events)
    ensures fresh(w) && w.Valid() && Heeds(w, events)
    ensures |w.gnssActs| == w.recGnss && |w.casterActs| == w.recCaster && |w.wifiActs| == w.recWifi
    ensures forall k :: 0 <= k < w.recGnss ==> w.gnssActs[k] >= Earliest(k, DEB_GNSS_S)
    ensures forall k :: 0 <= k < w.recCaster ==> w.casterActs[k] >= Earliest(k, DEB_CASTER_S)
    ensures forall k :: 0 <= k < w.recWifi ==> w.wifiActs[k] >= Earliest(k, DEB_LINK_S)
  {
    hide Progress, LowRun, Earliest, LastUp, Frames, Sends, Addresses;
    NoReports();
    w := new Watch(true, true, true);
    var i := 0;
    while i < |events|
      invariant 0 <= i <= |events| && fresh(w) && w.Valid() && Heeds(w, events[..i])
      invariant w.NotAfter(if i == 0 then 0 else Ends(events[i - 1]))
    {
      Handle(w, events[i], events[..i]);
      assert events[..i + 1] == events[..i] + [events[i]];
      i := i + 1;
    }
    assert events[..i] == events;
  }

  lemma NoReports()
    ensures Frames([]) == [] && Sends([]) == [] && Addresses([]) == []
  {
  }

  // -------------------------------------------------- the age of an outage

  // The link is restarted for an outage that began at `down`, behind an address obtained at `up`, as
  // it is meant, sixty seconds into the outage, at all times if and only if the address was lost in
  // the instant it was obtained: what is measured is its age, not that of the outage.
  lemma OutageAgedRightIff(up: nat, down: nat)
    requires up <= down
    ensures (forall now :: now >= down ==> (Outlasts(up, 60, now) <==> Outlasts(down, 60, now))) <==> up == down
  {
    if up < down {
      var now := if up + 60 * SECOND >= down then up + 60 * SECOND else down;
      assert Outlasts(up, 60, now) && !Outlasts(down, 60, now);
    }
  }

  predicate Outlasts(since: nat, s: nat, now: nat) { now >= since + s * SECOND }

  method LostAfterNinety() returns (w: Watch)
    ensures fresh(w) && w.Valid() && w.NotAfter(101 * SECOND)
    ensures w.rx == [] && w.notes == [] && w.heap == [] && w.lastLinkAct == 0 && w.lastGnssAct == 0
    ensures w.recoverWifi && w.recoverGnss && w.Offline(101 * SECOND, 60) && !w.Mute(101 * SECOND, 30)
  {
    hide Progress, LowRun, Earliest, LastUp, EverUp, Watch.RungOk;
    w := new Watch(true, true, true);
    NothingActed(w);
    IpNext(w.ips, Ip(10 * SECOND, true));
    w.NoteStaIp(10 * SECOND, true);
    IpNext(w.ips, Ip(100 * SECOND, false));
    w.NoteStaIp(100 * SECOND, false);
  }

  lemma NothingActed(w: Watch)
    requires w.Valid() && w.gnssActs == [] && w.wifiActs == [] && w.casterActs == []
    ensures w.lastLinkAct == 0 && w.lastGnssAct == 0 && w.lastCasterAct == 0
  {
  }

  // So a link that was up for ninety seconds is restarted one second after it is lost.
  method ShortOutageRestartsLink() returns (r: Report)
    ensures r == Report(NoReboot, true, false, true)
  {
    hide Progress, LowRun, Earliest, LastUp, EverUp, Watch.Valid, Watch.RungOk;
    NoneLow([false]);
    var w := LostAfterNinety();
    var t := 101 * SECOND;
    r := w.Tick(Pass(t, t, t, t, HEAP_FLOOR_B));
    assert w.heap == [false];
  }
}
