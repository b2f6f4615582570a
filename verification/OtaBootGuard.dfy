// The boot-loop guard: a fault counter and a "planned reboot" marker in flash, and the factory
// image as the way out. A log of what happened to the device gives both their meaning.
module OtaBootGuard {

  const MAX_BOOT_LOOPS: nat := 5
  const UINT8: nat := 0x100

  datatype Reason =
    | PowerOn | External | Software | DeepSleep | Sdio
    | Unknown | Panic | InterruptWatchdog | TaskWatchdog | Watchdog | Brownout

  // What a boot finds: why it happened, whether the image is pending verification or the factory
  // one, and which of the storage operations work.
  datatype BootEnv = BootEnv(
    reason: Reason, pendingVerify: bool, factory: bool,
    nvsOpens: bool, otadataFound: bool, eraseWorks: bool, nvsReopens: bool, noteOpens: bool)

  datatype Entry =
    | Booted(reason: Reason, pendingVerify: bool, factory: bool)
    | BootedBlind(factory: bool)
    | Noted
    | Cleared
    | FactorySelected
    | EraseFailed
    | Installed

  type Log = seq<Entry>

  // ------------------------------------------------------- what the log means

  // A planned reboot was announced since the last boot that could read the marker.
  predicate Announced(log: Log)
  {
    log != [] &&
    match log[|log| - 1]
    case Noted => true
    case Booted(_, _, _) => false
    case _ => Announced(log[..|log| - 1])
  }

  predicate CrashReason(r: Reason)
  {
    r == Panic || r == InterruptWatchdog || r == TaskWatchdog || r == Watchdog || r == Brownout || r == Unknown
  }

  // Evidence that the image is broken: a crash, or a software reset nobody planned.
  predicate Fault(before: Log, e: Entry)
  {
    e.Booted? && (CrashReason(e.reason) || (e.reason == Software && !Announced(before) && !e.pendingVerify))
  }

  // Fault boots since the counter was last cleared.
  function Faults(log: Log): nat
  {
    if log == [] then 0
    else
      var before, e := log[..|log| - 1], log[|log| - 1];
      if e.Cleared? then 0
      else Faults(before) + if Fault(before, e) then 1 else 0
  }

  // The boot selection as far as this code decides it.
  predicate OnFactory(log: Log)
  {
    log != [] &&
    match log[|log| - 1]
    case FactorySelected => true
    case Installed => false
    case _ => OnFactory(log[..|log| - 1])
  }

  // ------------------------------------------------------------- the guard

  // What one boot adds to the log.
  function GuardEntries(log: Log, env: BootEnv): (r: Log)
  {
    if !env.nvsOpens then [BootedBlind(env.factory)]
    else
      var boot := Booted(env.reason, env.pendingVerify, env.factory);
      if !Fault(log, boot) || (Faults(log) + 1) % UINT8 < MAX_BOOT_LOOPS || env.factory || !env.otadataFound then [boot]
      else if !env.eraseWorks then [boot, EraseFailed]
      else
        [boot, FactorySelected]
        + (if env.nvsReopens then [Cleared] else [])
        + (if env.noteOpens then [Noted] else [])
  }

  lemma LogAppend(log: Log, e: Entry)
    ensures (log + [e])[..|log|] == log && (log + [e])[|log|] == e
    ensures Announced(log + [e]) == (e.Noted? || (!e.Booted? && Announced(log)))
    ensures Faults(log + [e]) == if e.Cleared? then 0 else Faults(log) + if Fault(log, e) then 1 else 0
    ensures OnFactory(log + [e]) == (e.FactorySelected? || (!e.Installed? && OnFactory(log)))
  {
    assert (log + [e])[..|log|] == log;
  }

  // The device's flash: the counter and marker bytes and the OTA selection.
  class Flash {
    var bootloop: nat
    var planned: nat
    var otaErased: bool
    ghost var log: Log

    ghost predicate Valid()
      reads this
    {
      && bootloop == Faults(log) % UINT8
      && planned == (if Announced(log) then 1 else 0)
      && otaErased == OnFactory(log)
    }

    constructor ()
      ensures Valid() && log == []
    {
      bootloop, planned, otaErased, log := 0, 0, false, [];
    }

    ghost method Record(e: Entry)
      modifies this`log
      ensures log == old(log) + [e]
      ensures Announced(log) == (e.Noted? || (!e.Booted? && Announced(old(log))))
      ensures Faults(log) == if e.Cleared? then 0 else Faults(old(log)) + if Fault(old(log), e) then 1 else 0
      ensures OnFactory(log) == (e.FactorySelected? || (!e.Installed? && OnFactory(old(log))))
    {
      LogAppend(log, e);
      log := log + [e];
    }

    method NotePlannedReboot(opens: bool)
      requires Valid()
      modifies this
      ensures Valid() && log == old(log) + if opens then [Noted] else []
    {
      if !opens {
        return;
      }
      planned := 1;
      Record(Noted);
    }

    method Install()
      requires Valid()
      modifies this
      ensures Valid() && log == old(log) + [Installed]
    {
      otaErased := false;
      Record(Installed);
    }

    // The image ran for 45 minutes.
    method ClearBootloop(works: bool)
      requires Valid()
      modifies this
      ensures Valid() && log == old(log) + if works then [Cleared] else []
    {
      if works {
        bootloop := 0;
        Record(Cleared);
      }
    }

    // One boot. True if the device restarts at once, into the factory image.
    method Guard(env: BootEnv) returns (restarts: bool)
      requires Valid()
      modifies this
      ensures Valid() && log == old(log) + GuardEntries(old(log), env)
      ensures restarts <==> FactorySelected in GuardEntries(old(log), env)
    {
      hide Faults, Announced, OnFactory;
      if !env.nvsOpens {
        Record(BootedBlind(env.factory));
        return false;
      }
      var wasPlanned := planned != 0;
      if wasPlanned {
        planned := 0;
      }
      var crashLike := CrashReason(env.reason) || (env.reason == Software && !wasPlanned && !env.pendingVerify);
      ghost var boot := Booted(env.reason, env.pendingVerify, env.factory);
      Record(boot);
      if !crashLike {
        return false;
      }
      var boots := (bootloop + 1) % UINT8;
      bootloop := boots;
      if boots < MAX_BOOT_LOOPS {
        return false;
      }
      if env.factory || !env.otadataFound {
        return false;
      }
      restarts := FallBack(env);
    }

    // Erase first, and clear the counter only once the erase has worked.
    method FallBack(env: BootEnv) returns (restarts: bool)
      requires Valid()
      modifies this
      ensures Valid() && restarts == env.eraseWorks
      ensures log == old(log)
        + if !env.eraseWorks then [EraseFailed]
          else [FactorySelected]
               + (if env.nvsReopens then [Cleared] else [])
               + (if env.noteOpens then [Noted] else [])
    {
      hide Faults, Announced, OnFactory;
      if !env.eraseWorks {
        Record(EraseFailed);
        return false;
      }
      otaErased := true;
      Record(FactorySelected);
      if env.nvsReopens {
        bootloop := 0;
        Record(Cleared);
      }
      NotePlannedReboot(env.noteOpens);
      return true;
    }
  }

  // ------------------------------------------------------ whole runs of boots

  datatype Event = Boot(env: BootEnv) | NotePlanned(opens: bool) | Survived(works: bool) | Install

  function After(log: Log, ev: Event): Log
  {
    match ev
    case Boot(env) => log + GuardEntries(log, env)
    case NotePlanned(opens) => log + if opens then [Noted] else []
    case Survived(works) => log + if works then [Cleared] else []
    case Install => log + [Installed]
  }

  function Run(events: seq<Event>): Log
  {
    if events == [] then [] else After(Run(events[..|events| - 1]), events[|events| - 1])
  }

  // Software resets that only the marker kept from counting.
  predicate Excused(before: Log, e: Entry)
  {
    e.Booted? && e.reason == Software && !e.pendingVerify && Announced(before)
  }

  function CountExcused(log: Log): nat
  {
    if log == [] then 0
    else CountExcused(log[..|log| - 1]) + if Excused(log[..|log| - 1], log[|log| - 1]) then 1 else 0
  }

  function CountNoted(log: Log): nat
  {
    if log == [] then 0 else CountNoted(log[..|log| - 1]) + if log[|log| - 1].Noted? then 1 else 0
  }

  // One announcement excuses at most one software reset, in every history whatsoever.
  lemma {:induction false} MarkerExcusesOnce(log: Log)
    ensures CountExcused(log) + (if Announced(log) then 1 else 0) <= CountNoted(log)
  {
    if log != [] {
      MarkerExcusesOnce(log[..|log| - 1]);
    }
  }

  // Fault boots of images other than the factory one since the counter was last cleared.
  function OtaFaults(log: Log): nat
  {
    if log == [] then 0
    else
      var before, e := log[..|log| - 1], log[|log| - 1];
      if e.Cleared? then 0
      else OtaFaults(before) + if Fault(before, e) && !e.factory then 1 else 0
  }

  lemma OtaFaultsAppend(log: Log, e: Entry)
    ensures OtaFaults(log + [e]) == (if e.Cleared? then 0
                                     else OtaFaults(log) + if Fault(log, e) && !e.factory then 1 else 0)
  {
    assert (log + [e])[..|log|] == log;
  }

  lemma {:induction false} OtaFaultsAreFaults(log: Log)
    ensures OtaFaults(log) <= Faults(log)
  {
    if log != [] {
      OtaFaultsAreFaults(log[..|log| - 1]);
    }
  }

  predicate StorageWorks(ev: Event)
  {
    ev.Boot? ==> ev.env.nvsOpens && ev.env.otadataFound && ev.env.eraseWorks && ev.env.nvsReopens
  }

  // The counter never reached the point where one byte wraps.
  predicate BelowWrap(log: Log)
  {
    Faults(log) + 1 < UINT8
  }

  // With storage working, an image other than the factory one never gets past its fourth fault
  // boot: the fifth selects the factory image before it does anything else.
  lemma {:induction false} NoFifthFaultUnanswered(events: seq<Event>)
    requires forall i :: 0 <= i < |events| ==> StorageWorks(events[i])
    requires forall n :: 0 <= n < |events| ==> BelowWrap(Run(events[..n]))
    ensures OtaFaults(Run(events)) < MAX_BOOT_LOOPS
  {
    if events != [] {
      var prefix, ev := events[..|events| - 1], events[|events| - 1];
      forall n | 0 <= n < |prefix| ensures BelowWrap(Run(prefix[..n])) {
        assert prefix[..n] == events[..n];
      }
      NoFifthFaultUnanswered(prefix);
      assert BelowWrap(Run(events[..|events| - 1]));
      EventKeepsBelow(Run(prefix), ev);
    }
  }

  lemma EventKeepsBelow(log: Log, ev: Event)
    requires StorageWorks(ev) && BelowWrap(log) && OtaFaults(log) < MAX_BOOT_LOOPS
    ensures OtaFaults(After(log, ev)) < MAX_BOOT_LOOPS
  {
    match ev
    case Boot(env) => BootKeepsBelow(log, env);
    case NotePlanned(_) => OtaFaultsAppend(log, Noted); assert log + [] == log;
    case Survived(_) => OtaFaultsAppend(log, Cleared); assert log + [] == log;
    case Install => OtaFaultsAppend(log, Installed);
  }

  lemma BootKeepsBelow(log: Log, env: BootEnv)
    requires StorageWorks(Boot(env)) && BelowWrap(log) && OtaFaults(log) < MAX_BOOT_LOOPS
    ensures OtaFaults(log + GuardEntries(log, env)) < MAX_BOOT_LOOPS
  {
    hide Faults, OtaFaults, Announced;
    var boot := Booted(env.reason, env.pendingVerify, env.factory);
    var l1 := log + [boot];
    OtaFaultsAppend(log, boot);
    OtaFaultsAreFaults(log);
    if GuardEntries(log, env) != [boot] {
      var l2 := l1 + [FactorySelected];
      var l3 := l2 + [Cleared];
      OtaFaultsAppend(l1, FactorySelected);
      OtaFaultsAppend(l2, Cleared);
      OtaFaultsAppend(l3, Noted);
      assert log + GuardEntries(log, env) == l3 + if env.noteOpens then [Noted] else [];
      assert l3 + [] == l3;
    }
  }

  // When exactly a boot turns to the factory image.
  lemma FallbackIff(log: Log, env: BootEnv)
    ensures FactorySelected in GuardEntries(log, env)
       <==> (env.nvsOpens && !env.factory && env.otadataFound && env.eraseWorks
             && Fault(log, Booted(env.reason, env.pendingVerify, env.factory))
             && MAX_BOOT_LOOPS <= (Faults(log) + 1) % UINT8)
  {
  }

  // A fallback leaves the factory image selected and, with storage working, a clean counter and
  // an excuse for the restart it causes.
  lemma FallbackStartsClean(log: Log, env: BootEnv, next: BootEnv)
    requires FactorySelected in GuardEntries(log, env) && env.nvsReopens && env.noteOpens
    requires next.nvsOpens && next.reason == Software
    ensures var l := log + GuardEntries(log, env);
            OnFactory(l) && Faults(l) == 0
            && GuardEntries(l, next) == [Booted(Software, next.pendingVerify, next.factory)]
            && Faults(l + GuardEntries(l, next)) == 0
  {
    hide Faults, Announced, OnFactory;
    var l1 := log + [Booted(env.reason, env.pendingVerify, env.factory)];
    var l2, l3, l4 := l1 + [FactorySelected], l1 + [FactorySelected, Cleared], l1 + [FactorySelected, Cleared, Noted];
    LogAppend(l1, FactorySelected);
    LogAppend(l2, Cleared);
    assert l3 == l2 + [Cleared];
    LogAppend(l3, Noted);
    assert l4 == l3 + [Noted];
    assert log + GuardEntries(log, env) == l4;
    LogAppend(l4, Booted(Software, next.pendingVerify, next.factory));
  }

  // A failed erase keeps the count, so the next fault boot tries again.
  lemma FailedEraseRetries(log: Log, env: BootEnv, next: BootEnv)
    requires EraseFailed in GuardEntries(log, env) && Faults(log) + 2 < UINT8
    requires next.nvsOpens && !next.factory && next.otadataFound && CrashReason(next.reason)
    ensures var l := log + GuardEntries(log, env);
            Faults(l) == Faults(log) + 1
            && (if next.eraseWorks then FactorySelected in GuardEntries(l, next)
                else EraseFailed in GuardEntries(l, next))
  {
    hide Faults, Announced;
    var boot := Booted(env.reason, env.pendingVerify, env.factory);
    LogAppend(log, boot);
    LogAppend(log + [boot], EraseFailed);
    assert log + GuardEntries(log, env) == (log + [boot]) + [EraseFailed];
  }

  // ------------------------------------------------------- one byte only

  // The counter is one byte: after 255 faults that led nowhere (a crashing factory image counts,
  // and has nowhere to fall back to) the next fault is counted as none.
  function FactoryCrashes(n: nat): seq<Event>
  {
    if n == 0 then [] else FactoryCrashes(n - 1) + [Boot(BootEnv(Panic, false, true, true, true, true, true, true))]
  }

  lemma {:induction false} FactoryCrashesCount(n: nat)
    ensures Faults(Run(FactoryCrashes(n))) == n
    ensures forall i :: 0 <= i < n ==> i < |FactoryCrashes(n)| && StorageWorks(FactoryCrashes(n)[i])
    ensures |FactoryCrashes(n)| == n
  {
    if n > 0 {
      FactoryCrashesCount(n - 1);
      var events := FactoryCrashes(n);
      assert events[..|events| - 1] == FactoryCrashes(n - 1);
      LogAppend(Run(FactoryCrashes(n - 1)), Booted(Panic, false, true));
    }
  }

  // So behind 255 of those a broken new image crashes with storage working and is not answered,
  // although the faults since the last clear are far above five.
  lemma WrapHidesFaults()
    ensures var log := Run(FactoryCrashes(UINT8 - 1));
            && Faults(log) == 255
            && var crash := BootEnv(Panic, false, false, true, true, true, true, true);
               FactorySelected !in GuardEntries(log + [Installed], crash)
  {
    hide Faults, Run;
    FactoryCrashesCount(UINT8 - 1);
    LogAppend(Run(FactoryCrashes(UINT8 - 1)), Installed);
  }
}
