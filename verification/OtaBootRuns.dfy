// Which runs of boots end in the factory image, told from the boots alone: why each happened, what
// was announced and what storage did.
module OtaBootRuns {
  import opened OtaBootGuard

  // Event `k` selected the factory image.
  predicate Turns(events: seq<Event>, k: nat)
    requires k < |events|
  {
    events[k].Boot? && FactorySelected in GuardEntries(Run(events[..k]), events[k].env)
  }

  // A restart was announced: by whoever planned it, or by the guard that turned to the factory image.
  predicate Announces(events: seq<Event>, k: nat)
    requires k < |events|
  {
    events[k] == NotePlanned(true) || (Turns(events, k) && events[k].env.noteOpens)
  }

  predicate ReadsMarker(ev: Event) { ev.Boot? && ev.env.nvsOpens }

  // Behind every announcement some boot has read it already.
  predicate Unannounced(events: seq<Event>)
  {
    forall k :: 0 <= k < |events| && Announces(events, k) ==> exists j :: k < j < |events| && ReadsMarker(events[j])
  }

  // A boot that speaks against the image.
  predicate Bad(before: seq<Event>, env: BootEnv)
  {
    env.nvsOpens &&
    match env.reason
    case Panic => true
    case InterruptWatchdog => true
    case TaskWatchdog => true
    case Watchdog => true
    case Brownout => true
    case Unknown => true
    case Software => !env.pendingVerify && Unannounced(before)
    case PowerOn => false
    case External => false
    case DeepSleep => false
    case Sdio => false
  }

  predicate Clears(events: seq<Event>, k: nat)
    requires k < |events|
  {
    events[k] == Survived(true) || (Turns(events, k) && events[k].env.nvsReopens)
  }

  predicate BadBoot(events: seq<Event>, k: nat)
    requires k < |events|
  {
    events[k].Boot? && Bad(events[..k], events[k].env)
  }

  // Bad boots since the image last survived or the device last turned to the factory image.
  function BadSince(events: seq<Event>): nat
  {
    if events == [] then 0
    else
      var n := |events| - 1;
      if Clears(events, n) then 0
      else BadSince(events[..n]) + if BadBoot(events, n) then 1 else 0
  }

  // ------------------------------------------------- what the log makes of them

  lemma BootLogged(log: Log, env: BootEnv)
    ensures var turns, l := FactorySelected in GuardEntries(log, env), log + GuardEntries(log, env);
            && Announced(l) == (if env.nvsOpens then turns && env.noteOpens else Announced(log))
            && Faults(l) == (if turns && env.nvsReopens then 0
                             else Faults(log) + if Fault(log, Booted(env.reason, env.pendingVerify, env.factory))
                                                   && env.nvsOpens then 1 else 0)
  {
    hide Announced, Faults, OnFactory, Fault;
    var es := GuardEntries(log, env);
    assert es[0].BootedBlind? || es[0].Booted?;
    LogAppend(log, es[0]);
    NothingToFault(log, es[0]);
    assert |es| == 1 ==> log + es == log + [es[0]];
    if |es| > 1 {
      var l1 := log + [es[0]];
      LogAppend(l1, es[1]);
      var l2 := l1 + [es[1]];
      assert es[1] == EraseFailed || (es[1] == FactorySelected && (env.nvsReopens ==> |es| > 2 && es[2] == Cleared));
      NothingToFault(l1, es[1]);
      assert |es| == 2 ==> log + es == l2;
      if |es| > 2 {
        LogAppend(l2, es[2]);
        NothingToFault(l2, es[2]);
        var l3 := l2 + [es[2]];
        assert |es| == 3 ==> log + es == l3;
        if |es| > 3 {
          LogAppend(l3, es[3]);
          NothingToFault(l3, es[3]);
          assert log + es == l3 + [es[3]];
        }
      }
    }
  }

  lemma NothingToFault(log: Log, e: Entry)
    ensures !e.Booted? ==> !Fault(log, e)
  {
  }

  lemma PrefixOf(events: seq<Event>, k: nat)
    requires k < |events| - 1
    ensures var p := events[..|events| - 1];
            && Turns(p, k) == Turns(events, k) && Announces(p, k) == Announces(events, k)
            && BadBoot(p, k) == BadBoot(events, k)
  {
    hide Run, GuardEntries, Bad;
    assert events[..|events| - 1][..k] == events[..k];
  }

  // The marker in flash says whether a restart stands announced.
  lemma {:induction false} MarkerIff(events: seq<Event>)
    ensures Announced(Run(events)) <==> !Unannounced(events)
  {
    hide Announced, GuardEntries, Turns;
    if events == [] {
      assert !Announced(Run(events)) by { NothingLogged(); }
    } else {
      var n := |events| - 1;
      var p := events[..n];
      MarkerIff(p);
      forall k | 0 <= k < n ensures Announces(p, k) == Announces(events, k) {
        PrefixOf(events, k);
      }
      LastMarker(events);
      if ReadsMarker(events[n]) {
        assert ReadsMarker(events[n]);
      } else if Announces(events, n) {
        assert !Unannounced(events);
      } else if Unannounced(p) {
        forall k | 0 <= k < |events| && Announces(events, k)
          ensures exists j :: k < j < |events| && ReadsMarker(events[j])
        {
          var j :| k < j < n && ReadsMarker(p[j]);
          assert ReadsMarker(events[j]);
        }
      } else {
        var k :| 0 <= k < n && Announces(p, k) && forall j :: k < j < n ==> !ReadsMarker(p[j]);
        assert Announces(events, k) && forall j :: k < j < |events| ==> !ReadsMarker(events[j]);
      }
    }
  }

  lemma NothingLogged()
    ensures !Announced(Run([])) && Faults(Run([])) == 0
  {
  }

  lemma LastMarker(events: seq<Event>)
    requires events != []
    ensures var n := |events| - 1;
            Announced(Run(events)) <==> Announces(events, n) || (!ReadsMarker(events[n]) && Announced(Run(events[..n])))
  {
    hide Announced, Faults, GuardEntries;
    var n := |events| - 1;
    var log := Run(events[..n]);
    match events[n]
    case Boot(env) => BootLogged(log, env); BlindTurnsNothing(log, env);
    case NotePlanned(_) => LogAppend(log, Noted); assert log + [] == log;
    case Survived(_) => LogAppend(log, Cleared); assert log + [] == log;
    case Install => LogAppend(log, Installed);
  }

  lemma BlindTurnsNothing(log: Log, env: BootEnv)
    ensures !env.nvsOpens ==> FactorySelected !in GuardEntries(log, env)
  {
  }

  lemma BadIffFault(events: seq<Event>, env: BootEnv)
    ensures Bad(events, env)
       <==> (env.nvsOpens && Fault(Run(events), Booted(env.reason, env.pendingVerify, env.factory)))
  {
    hide Announced, Run, Unannounced;
    MarkerIff(events);
  }

  // The counter counts exactly the bad boots.
  lemma {:induction false} FaultsAreBadBoots(events: seq<Event>)
    ensures Faults(Run(events)) == BadSince(events)
  {
    hide Faults, Bad, Announced, GuardEntries;
    if events == [] {
      NothingLogged();
    } else {
      var n := |events| - 1;
      var log := Run(events[..n]);
      FaultsAreBadBoots(events[..n]);
      match events[n]
      case Boot(env) => BootLogged(log, env); BadIffFault(events[..n], env);
      case NotePlanned(_) => LogAppend(log, Noted); NothingToFault(log, Noted); assert log + [] == log;
      case Survived(_) => LogAppend(log, Cleared); assert log + [] == log;
      case Install => LogAppend(log, Installed); NothingToFault(log, Installed);
    }
  }

  // ------------------------------------------------------------ which runs turn

  // In every run: a boot turns to the factory image exactly if it is bad, the image is not the
  // factory one, otadata is found and erased, and it is the fifth bad one or a later one, modulo 256.
  lemma TurnsIff(events: seq<Event>, k: nat)
    requires k < |events| && events[k].Boot?
    ensures var env := events[k].env;
            Turns(events, k)
            <==> (Bad(events[..k], env) && !env.factory && env.otadataFound && env.eraseWorks
                  && 5 <= (BadSince(events[..k]) + 1) % 0x100)
  {
    hide Faults, Run, Bad, BadSince;
    FaultsAreBadBoots(events[..k]);
    BadIffFault(events[..k], events[k].env);
    FallbackIff(Run(events[..k]), events[k].env);
  }

  // Bad boots of images other than the factory one, from event `from` on.
  function BadFrom(events: seq<Event>, from: nat): nat
    requires from <= |events|
  {
    if from == |events| then 0
    else
      var n := |events| - 1;
      BadFrom(events[..n], from) + if BadBoot(events, n) && !events[n].env.factory then 1 else 0
  }

  // With storage working, no image survived and the count below its wrap: five bad boots of an image
  // end in the factory one, whatever else happens between them.
  lemma {:induction false} FiveBadBootsTurn(events: seq<Event>, from: nat)
    requires from <= |events| && BadFrom(events, from) >= 5
    requires forall k :: from <= k < |events| ==> StorageWorks(events[k]) && events[k] != Survived(true)
    requires forall n :: from <= n < |events| ==> BadSince(events[..n]) + 1 < 0x100
    ensures exists k :: from <= k < |events| && Turns(events, k)
  {
    hide Bad, BadSince, Turns;
    if !exists k :: from <= k < |events| && Turns(events, k) {
      FewBadBoots(events, from);
    }
  }

  lemma {:induction false} FewBadBoots(events: seq<Event>, from: nat)
    requires from <= |events| && forall k :: from <= k < |events| ==> !Turns(events, k)
    requires forall k :: from <= k < |events| ==> StorageWorks(events[k]) && events[k] != Survived(true)
    requires forall n :: from <= n < |events| ==> BadSince(events[..n]) + 1 < 0x100
    ensures BadFrom(events, from) < 5 && BadFrom(events, from) <= BadSince(events)
  {
    hide Bad, Turns;
    if from < |events| {
      var n := |events| - 1;
      var p := events[..n];
      forall k | from <= k < n ensures !Turns(p, k) {
        PrefixOf(events, k);
      }
      forall m | from <= m < n ensures BadSince(p[..m]) + 1 < 0x100 {
        assert p[..m] == events[..m];
      }
      FewBadBoots(p, from);
      assert BadSince(events[..n]) + 1 < 0x100;
      if events[n].Boot? {
        TurnsIff(events, n);
      }
    }
  }

  // Power-on, external reset, deep sleep, SDIO, and software resets that were announced or follow an
  // installation.
  predicate Harmless(before: seq<Event>, ev: Event)
  {
    ev.Boot? &&
    (ev.env.reason in {PowerOn, External, DeepSleep, Sdio}
     || (ev.env.reason == Software && (ev.env.pendingVerify || !Unannounced(before))))
  }

  // No number of them brings the factory image nearer.
  lemma {:induction false} HarmlessBootsChangeNothing(events: seq<Event>, more: seq<Event>)
    requires forall i :: 0 <= i < |more| ==> Harmless(events + more[..i], more[i])
    ensures BadSince(events + more) == BadSince(events)
    ensures forall k :: |events| <= k < |events + more| ==> !Turns(events + more, k)
  {
    hide Unannounced, Turns;
    if more == [] {
      assert events + more == events;
    } else {
      var n := |more| - 1;
      var all := events + more;
      assert all[..|all| - 1] == events + more[..n];
      forall i | 0 <= i < n ensures Harmless(events + more[..n][..i], more[..n][i]) {
        assert more[..n][..i] == more[..i];
      }
      HarmlessBootsChangeNothing(events, more[..n]);
      TurnsIff(all, |all| - 1);
      assert !Turns(all, |all| - 1) && !BadBoot(all, |all| - 1);
      forall k | |events| <= k < |all| - 1 ensures !Turns(all, k) {
        PrefixOf(all, k);
      }
    }
  }

  // The restart loop of the supervisor: a confirmed image is restarted again and again by software
  // that announces nothing. The fifth boot turns to the factory image, and no earlier one.
  lemma RestartLoopEnds(boot: Event, events: seq<Event>)
    requires boot == Boot(BootEnv(Software, false, false, true, true, true, true, true))
    requires events == [boot, boot, boot, boot, boot]
    ensures Turns(events, 4) && forall k :: 0 <= k < 4 ==> !Turns(events, k)
  {
    hide Turns, Run, Bad, BadSince, Unannounced;
    forall k | 0 <= k <= 4 ensures Turns(events, k) <==> k == 4 {
      LoopSoFar(boot, events[..k]);
      TurnsIff(events, k);
    }
  }

  lemma {:induction false} LoopSoFar(boot: Event, events: seq<Event>)
    requires boot == Boot(BootEnv(Software, false, false, true, true, true, true, true))
    requires |events| <= 4 && forall i :: 0 <= i < |events| ==> events[i] == boot
    ensures BadSince(events) == |events| && Unannounced(events) && Bad(events, boot.env)
    ensures forall j :: 0 <= j < |events| ==> !Turns(events, j)
  {
    hide Turns, Run;
    if events != [] {
      var n := |events| - 1;
      LoopSoFar(boot, events[..n]);
      TurnsIff(events, n);
      forall j | 0 <= j < n ensures !Turns(events, j) {
        PrefixOf(events, j);
      }
    }
  }
}
