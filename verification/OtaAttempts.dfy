// Which published versions are installed, and how often a failing one is tried: the version
// comparison, the attempt budget in flash, the boot check and the daily poll.
module OtaAttempts {

  datatype Option<T> = None | Some(value: T)

  const MAX_OTA_ATTEMPTS: nat := 3
  // The version is read back into 24 bytes, one of them for the terminator.
  const STORED_MAX: nat := 23

  // --------------------------------------------------------------- versions

  predicate IsDigit(c: char) { '0' <= c <= '9' }

  predicate IsSpace(c: char) { c == ' ' || '\t' <= c <= '\r' }

  function SkipSpace(s: string, i: nat): (r: nat)
    requires i <= |s|
    ensures i <= r <= |s|
    decreases |s| - i
  {
    if i < |s| && IsSpace(s[i]) then SkipSpace(s, i + 1) else i
  }

  function DigitsEnd(s: string, i: nat): (r: nat)
    requires i <= |s|
    ensures i <= r <= |s|
    decreases |s| - i
  {
    if i < |s| && IsDigit(s[i]) then DigitsEnd(s, i + 1) else i
  }

  function Number(s: string, i: nat, j: nat): int
    requires i <= j <= |s|
    decreases j - i
  {
    if i == j then 0
    else Number(s, i, j - 1) * 10 + (if IsDigit(s[j - 1]) then s[j - 1] as int - '0' as int else 0)
  }

  // One %d conversion: the value and where the input continues.
  function ScanInt(s: string, i: nat): (r: Option<(int, nat)>)
    requires i <= |s|
    ensures r.Some? ==> i < r.value.1 <= |s|
  {
    var k := SkipSpace(s, i);
    var signed := k < |s| && (s[k] == '-' || s[k] == '+');
    var from := if signed then k + 1 else k;
    var to := DigitsEnd(s, from);
    if to == from then None
    else Some((if signed && s[k] == '-' then -Number(s, from, to) else Number(s, from, to), to))
  }

  // The converted numbers of "%d.%d.%d", up to `n` of them.
  function ScanDotted(s: string, i: nat, n: nat): (r: seq<int>)
    requires i <= |s|
    ensures |r| <= n
    decreases n
  {
    if n == 0 then []
    else
      match ScanInt(s, i)
      case None => []
      case Some((x, j)) =>
        [x] + if j < |s| && s[j] == '.' then ScanDotted(s, j + 1, n - 1) else []
  }

  function Parts(s: string): (r: seq<int>)
    ensures |r| == 3
  {
    var v := ScanDotted(s, 0, 3);
    v + seq(3 - |v|, _ => 0)
  }

  predicate Parseable(s: string) { ScanDotted(s, 0, 3) != [] }

  // Lexicographic order from position `i` on.
  predicate Below(a: seq<int>, b: seq<int>, i: nat)
    requires |a| == |b| && i <= |a|
    decreases |a| - i
  {
    i < |a| && (a[i] < b[i] || (a[i] == b[i] && Below(a, b, i + 1)))
  }

  predicate Newer(cand: string, cur: string)
  {
    if Parseable(cand) && Parseable(cur) then Below(Parts(cur), Parts(cand), 0) else cand != cur
  }

  // The first number in which two versions differ decides, and the larger one is newer.
  method VersionIsNewer(cand: string, cur: string) returns (newer: bool)
    ensures newer == Newer(cand, cur)
    ensures Parseable(cand) && Parseable(cur) ==>
              (newer <==> exists k :: 0 <= k < 3 && Ahead(Parts(cand), Parts(cur), k))
    ensures !Parseable(cand) || !Parseable(cur) ==> (newer <==> cand != cur)
  {
    hide ScanDotted, Parts;
    NewerIff(cand, cur);
    var ca, cu := Parts(cand), Parts(cur);
    if !Parseable(cand) || !Parseable(cur) {
      return cand != cur;
    }
    var i := 0;
    while i < 3
      invariant 0 <= i <= 3
      invariant Below(cu, ca, 0) == Below(cu, ca, i)
    {
      if ca[i] > cu[i] {
        return true;
      }
      if ca[i] < cu[i] {
        return false;
      }
      i := i + 1;
    }
    return false;
  }

  // `a` and `b` agree in front of `k` and `a` is larger there.
  predicate Ahead(a: seq<int>, b: seq<int>, k: nat)
    requires k < |a| && k < |b|
  {
    a[k] > b[k] && forall j :: 0 <= j < k ==> a[j] == b[j]
  }

  lemma {:induction false} BelowIff(a: seq<int>, b: seq<int>, i: nat)
    requires |a| == |b| && i <= |a| && forall j :: 0 <= j < i ==> a[j] == b[j]
    ensures Below(a, b, i) <==> exists k :: i <= k < |a| && Ahead(b, a, k)
    decreases |a| - i
  {
    if i < |a| {
      if a[i] == b[i] {
        BelowIff(a, b, i + 1);
      } else if a[i] < b[i] {
        assert Ahead(b, a, i);
      }
    }
  }

  lemma NewerIff(cand: string, cur: string)
    ensures Parseable(cand) && Parseable(cur) ==>
              (Newer(cand, cur) <==> exists k :: 0 <= k < 3 && Ahead(Parts(cand), Parts(cur), k))
  {
    hide Parts, Parseable, Below;
    BelowIff(Parts(cur), Parts(cand), 0);
  }

  // ------------------------------------------------------- versions as printed

  function Decimal(n: nat): (s: string)
    ensures s != "" && forall i :: 0 <= i < |s| ==> IsDigit(s[i])
  {
    var last := "0123456789"[n % 10];
    if n < 10 then [last] else Decimal(n / 10) + [last]
  }

  // Up to three numbers with dots between them.
  function Dotted(ns: seq<nat>): (s: string)
    ensures ns != [] ==> s != "" && IsDigit(s[0])
  {
    if ns == [] then ""
    else if |ns| == 1 then Decimal(ns[0])
    else Decimal(ns[0]) + "." + Dotted(ns[1..])
  }

  lemma {:induction false} NumberOfDecimal(pre: string, n: nat, post: string)
    ensures Number(pre + Decimal(n) + post, |pre|, |pre| + |Decimal(n)|) == n
  {
    var s, j := pre + Decimal(n) + post, |pre| + |Decimal(n)|;
    assert s[j - 1] == Decimal(n)[|Decimal(n)| - 1] == "0123456789"[n % 10];
    if n < 10 {
      assert Number(s, |pre|, |pre|) == 0;
    } else {
      assert pre + Decimal(n / 10) + ("0123456789"[n % 10..n % 10 + 1] + post) == s;
      NumberOfDecimal(pre, n / 10, "0123456789"[n % 10..n % 10 + 1] + post);
    }
  }

  lemma {:induction false} DigitsEndAt(s: string, i: nat, j: nat)
    requires i <= j <= |s| && (forall k :: i <= k < j ==> IsDigit(s[k])) && (j < |s| ==> !IsDigit(s[j]))
    ensures DigitsEnd(s, i) == j
    decreases j - i
  {
    if i < j {
      DigitsEndAt(s, i + 1, j);
    }
  }

  lemma ScanDecimal(pre: string, n: nat, post: string)
    requires post == "" || !IsDigit(post[0])
    ensures ScanInt(pre + Decimal(n) + post, |pre|) == Some((n, |pre| + |Decimal(n)|))
  {
    hide Decimal, Number, DigitsEnd;
    var s, j := pre + Decimal(n) + post, |pre| + |Decimal(n)|;
    assert forall k :: |pre| <= k < j ==> s[k] == Decimal(n)[k - |pre|];
    assert post != "" ==> s[j] == post[0];
    DigitsEndAt(s, |pre|, j);
    NumberOfDecimal(pre, n, post);
  }

  lemma {:induction false} ScanOfDotted(pre: string, ns: seq<nat>, n: nat)
    requires 0 < |ns| <= n
    ensures ScanDotted(pre + Dotted(ns), |pre|, n) == ns
    decreases n
  {
    hide ScanInt, Decimal;
    if |ns| == 1 {
      assert pre + Decimal(ns[0]) + "" == pre + Dotted(ns);
      ScanDecimal(pre, ns[0], "");
      assert ns == [ns[0]];
    } else {
      var head := pre + Decimal(ns[0]) + ".";
      assert pre + Decimal(ns[0]) + ("." + Dotted(ns[1..])) == pre + Dotted(ns) == head + Dotted(ns[1..]);
      ScanDecimal(pre, ns[0], "." + Dotted(ns[1..]));
      ScanOfDotted(head, ns[1..], n - 1);
      assert ns == [ns[0]] + ns[1..];
    }
  }

  // A printed version of one to three numbers reads back as those numbers, the missing ones zero.
  lemma PrintedReadsBack(ns: seq<nat>)
    requires 0 < |ns| <= 3
    ensures Parseable(Dotted(ns)) && Parts(Dotted(ns)) == ns + seq(3 - |ns|, _ => 0)
  {
    hide ScanDotted, Dotted;
    ScanOfDotted("", ns, 3);
    assert "" + Dotted(ns) == Dotted(ns);
  }

  predicate Greater(a: seq<nat>, b: seq<nat>)
    requires |a| == |b| == 3
  {
    a[0] > b[0] || (a[0] == b[0] && (a[1] > b[1] || (a[1] == b[1] && a[2] > b[2])))
  }

  // So releases are ordered by their numbers, as numbers: 1.0.10 is newer than 1.0.9.
  lemma PrintedNewerIff(a: seq<nat>, b: seq<nat>)
    requires |a| == |b| == 3
    ensures Newer(Dotted(a), Dotted(b)) <==> Greater(a, b)
  {
    hide Parts, Parseable, Newer, Dotted;
    PrintedReadsBack(a);
    PrintedReadsBack(b);
    NewerIff(Dotted(a), Dotted(b));
    assert a + seq(0, _ => 0) == a && b + seq(0, _ => 0) == b;
    var x, y: seq<int> := a, b;
    assert x == Parts(Dotted(a)) && y == Parts(Dotted(b));
    assert (exists k :: 0 <= k < 3 && Ahead(x, y, k)) <==> Ahead(x, y, 0) || Ahead(x, y, 1) || Ahead(x, y, 2);
  }

  lemma {:induction false} BelowTransitive(a: seq<int>, b: seq<int>, c: seq<int>, i: nat)
    requires |a| == |b| == |c| && i <= |a|
    requires Below(a, b, i) && Below(b, c, i)
    ensures Below(a, c, i)
    decreases |a| - i
  {
    if a[i] == b[i] == c[i] {
      BelowTransitive(a, b, c, i + 1);
    }
  }

  lemma {:induction false} BelowTotal(a: seq<int>, b: seq<int>, i: nat)
    requires |a| == |b| && i <= |a|
    ensures !(Below(a, b, i) && Below(b, a, i))
    ensures Below(a, b, i) || Below(b, a, i) || a[i..] == b[i..]
    decreases |a| - i
  {
    if i < |a| {
      BelowTotal(a, b, i + 1);
      assert a[i..] == [a[i]] + a[i + 1..] && b[i..] == [b[i]] + b[i + 1..];
    }
  }

  // Two versions are each newer than the other exactly if they differ and one of them holds no number.
  lemma NewerBothWaysIff(a: string, b: string)
    ensures (Newer(a, b) && Newer(b, a)) <==> (a != b && !(Parseable(a) && Parseable(b)))
  {
    hide ScanDotted, Below;
    BelowTotal(Parts(a), Parts(b), 0);
  }

  // Among parseable versions being newer is a strict order.
  lemma NewerTransitive(a: string, b: string, c: string)
    requires Parseable(a) && Parseable(b) && Parseable(c) && Newer(b, a)
    ensures Newer(c, b) ==> Newer(c, a)
    ensures !Newer(b, c) ==> Newer(c, a)
    ensures !Newer(a, b) && !Newer(a, a)
  {
    hide ScanDotted, Below, Parts;
    var x, y, z := Parts(a), Parts(b), Parts(c);
    BelowTotal(x, y, 0);
    BelowTotal(x, x, 0);
    BelowTotal(y, z, 0);
    if Below(y, z, 0) {
      BelowTransitive(x, y, z, 0);
    } else {
      assert y[0..] == y && z[0..] == z;
    }
  }

  // -------------------------------------------------------------- the budget

  datatype Entry = Booked(version: string) | Download(version: string) | Restart(version: string) | Confirmed

  type Log = seq<Entry>

  // The version of the last booking, unless an image was confirmed since.
  function LastBooked(log: Log): Option<string>
  {
    if log == [] then None
    else
      match log[|log| - 1]
      case Booked(v) => Some(v)
      case Confirmed => None
      case _ => LastBooked(log[..|log| - 1])
  }

  // Bookings of a version since another was booked or an image confirmed.
  function Attempts(log: Log, version: string): nat
  {
    if log == [] then 0
    else
      var before := log[..|log| - 1];
      match log[|log| - 1]
      case Booked(v) => if v == version then Attempts(before, version) + 1 else 0
      case Confirmed => 0
      case _ => Attempts(before, version)
  }

  // Downloads of a version started in the same span.
  function Downloads(log: Log, version: string): nat
  {
    if log == [] then 0
    else
      var before := log[..|log| - 1];
      match log[|log| - 1]
      case Download(v) => Downloads(before, version) + if v == version then 1 else 0
      case Booked(v) => if v == version then Downloads(before, version) else 0
      case Confirmed => 0
      case _ => Downloads(before, version)
  }

  lemma LogAppend(log: Log, e: Entry)
    ensures LastBooked(log + [e]) == (if e.Booked? then Some(e.version)
                                      else if e.Confirmed? then None
                                      else LastBooked(log))
    ensures forall v ::
      Attempts(log + [e], v) == (if e.Confirmed? then 0
                                 else if e.Booked? then (if e.version == v then Attempts(log, v) + 1 else 0)
                                 else Attempts(log, v))
    ensures forall v ::
      Downloads(log + [e], v) == (if e.Confirmed? || (e.Booked? && e.version != v) then 0
                                  else Downloads(log, v) + if e.Download? && e.version == v then 1 else 0)
  {
    assert (log + [e])[..|log|] == log;
  }

  // Refused: three bookings, of a version short enough to be read back.
  predicate Spent(log: Log, version: string)
  {
    |version| <= STORED_MAX && Attempts(log, version) >= MAX_OTA_ATTEMPTS
  }

  // ------------------------------------------------- boot check and daily poll

  // What a boot check meets: the published version, if any, and whether memory and uplink do.
  datatype BootEnv = BootEnv(published: Option<string>, roomy: bool, nvsOpens: bool)

  function BootEntries(log: Log, running: string, env: BootEnv): Log
  {
    if env.published.None? || !Newer(env.published.value, running) || !env.roomy then []
    else
      var v := env.published.value;
      if !env.nvsOpens then [Download(v)]
      else if Spent(log, v) then []
      else [Booked(v), Download(v)]
  }

  function PollEntries(log: Log, running: string, published: Option<string>, nvsOpens: bool): Log
  {
    if published.Some? && Newer(published.value, running) && !(nvsOpens && Spent(log, published.value))
    then [Restart(published.value)]
    else []
  }

  // What a device that runs one release does about another that is published: it fetches exactly a
  // greater one, if there is room and fewer than three attempts at it are booked, and books first;
  // without storage it neither counts nor books.
  lemma ReleaseFetchedIff(log: Log, running: seq<nat>, next: seq<nat>, roomy: bool, opens: bool)
    requires |running| == |next| == 3
    ensures var v, greater := Dotted(next), Greater(next, running);
            var spent := opens && |v| <= 23 && Attempts(log, v) >= 3;
            && BootEntries(log, Dotted(running), BootEnv(Some(v), roomy, opens))
                 == (if !greater || !roomy || spent then [] else (if opens then [Booked(v)] else []) + [Download(v)])
            && PollEntries(log, Dotted(running), Some(v), opens)
                 == (if greater && !spent then [Restart(v)] else [])
  {
    hide Dotted, Attempts, Newer;
    PrintedNewerIff(next, running);
  }

  class Budget {
    var failVer: Option<string>
    var failCnt: nat
    ghost var log: Log

    ghost predicate Valid()
      reads this
    {
      && failVer == LastBooked(log)
      && failCnt == match LastBooked(log)
                    case None => 0
                    case Some(v) => if |v| <= STORED_MAX then Attempts(log, v) else 1
    }

    constructor ()
      ensures Valid() && log == []
    {
      failVer, failCnt, log := None, 0, [];
    }

    ghost method Record(e: Entry)
      modifies this`log
      ensures log == old(log) + [e]
    {
      log := log + [e];
    }

    // nvs_get_str into 24 bytes: absent or too long reads as an error.
    function StoredFor(version: string): nat
      reads this
    {
      if failVer.Some? && |failVer.value| <= STORED_MAX && failVer.value == version then failCnt else 0
    }

    // May this version be tried? If so, the attempt is booked first.
    method AttemptAllowed(version: string, nvsOpens: bool) returns (allowed: bool)
      requires Valid()
      modifies this
      ensures Valid() && allowed == !(nvsOpens && Spent(old(log), version))
      ensures log == old(log) + if allowed && nvsOpens then [Booked(version)] else []
    {
      hide Attempts, LastBooked, Downloads;
      if !nvsOpens {
        return true;
      }
      OthersHaveNone(log, version);
      var cnt := StoredFor(version);
      if cnt >= MAX_OTA_ATTEMPTS {
        return false;
      }
      failVer := Some(version);
      failCnt := cnt + 1;
      LogAppend(log, Booked(version));
      Record(Booked(version));
      return true;
    }

    // The read-only twin.
    method AttemptsExhausted(version: string, nvsOpens: bool) returns (exhausted: bool)
      requires Valid()
      ensures exhausted == (nvsOpens && Spent(log, version))
    {
      hide Attempts, LastBooked, Downloads;
      if !nvsOpens {
        return false;
      }
      OthersHaveNone(log, version);
      var cnt := StoredFor(version);
      return cnt >= MAX_OTA_ATTEMPTS;
    }

    // Only after the running image was confirmed.
    method ClearAttempts()
      requires Valid()
      modifies this
      ensures Valid() && log == old(log) + [Confirmed]
    {
      failVer, failCnt := None, 0;
      LogAppend(log, Confirmed);
      Record(Confirmed);
    }

    method BootCheck(running: string, env: BootEnv)
      requires Valid()
      modifies this
      ensures Valid() && log == old(log) + BootEntries(old(log), running, env)
    {
      hide Attempts, LastBooked, Downloads, Newer;
      if env.published.None? {
        return;
      }
      var version := env.published.value;
      var newer := VersionIsNewer(version, running);
      if !newer || !env.roomy {
        return;
      }
      var allowed := AttemptAllowed(version, env.nvsOpens);
      if !allowed {
        return;
      }
      LogAppend(log, Download(version));
      Record(Download(version));
    }

    method DailyPoll(running: string, published: Option<string>, nvsOpens: bool)
      requires Valid()
      modifies this
      ensures Valid() && log == old(log) + PollEntries(old(log), running, published, nvsOpens)
    {
      hide Attempts, LastBooked, Downloads, Newer;
      if published.None? {
        return;
      }
      var newer := VersionIsNewer(published.value, running);
      if newer {
        var exhausted := AttemptsExhausted(published.value, nvsOpens);
        newer := !exhausted;
      }
      if newer {
        LogAppend(log, Restart(published.value));
        Record(Restart(published.value));
      }
    }
  }

  lemma {:induction false} OthersHaveNone(log: Log, version: string)
    ensures LastBooked(log) != Some(version) ==> Attempts(log, version) == 0
    ensures LastBooked(log) == Some(version) ==> Attempts(log, version) >= 1
  {
    if log != [] {
      OthersHaveNone(log[..|log| - 1], version);
    }
  }

  // ------------------------------------------------------------- whole runs

  datatype Event =
    | Boot(running: string, env: BootEnv)
    | Poll(running: string, published: Option<string>, nvsOpens: bool)
    | ImageConfirmed

  predicate StorageWorks(ev: Event)
  {
    && (ev.Boot? ==> ev.env.nvsOpens)
    && (ev.Poll? ==> ev.nvsOpens)
  }

  function After(log: Log, ev: Event): Log
  {
    match ev
    case Boot(running, env) => log + BootEntries(log, running, env)
    case Poll(running, published, opens) => log + PollEntries(log, running, published, opens)
    case ImageConfirmed => log + [Confirmed]
  }

  function Run(events: seq<Event>): Log
  {
    if events == [] then [] else After(Run(events[..|events| - 1]), events[|events| - 1])
  }

  // In every run with storage working, at most three downloads of a version start before another
  // version is booked or an image confirmed.
  lemma {:induction false} AtMostThreeDownloads(events: seq<Event>, version: string)
    requires forall i :: 0 <= i < |events| ==> StorageWorks(events[i])
    requires |version| <= STORED_MAX
    ensures Downloads(Run(events), version) <= Attempts(Run(events), version) <= MAX_OTA_ATTEMPTS
  {
    if events != [] {
      AtMostThreeDownloads(events[..|events| - 1], version);
      EventWithinBudget(Run(events[..|events| - 1]), events[|events| - 1], version);
    }
  }

  lemma EventWithinBudget(log: Log, ev: Event, version: string)
    requires StorageWorks(ev) && |version| <= STORED_MAX
    requires Downloads(log, version) <= Attempts(log, version) <= MAX_OTA_ATTEMPTS
    ensures var l := After(log, ev); Downloads(l, version) <= Attempts(l, version) <= MAX_OTA_ATTEMPTS
  {
    hide Attempts, Downloads, Newer;
    assert log + [] == log;
    match ev
    case Boot(running, env) =>
      if env.published.Some? {
        var v := env.published.value;
        LogAppend(log, Booked(v));
        LogAppend(log + [Booked(v)], Download(v));
        assert log + [Booked(v), Download(v)] == (log + [Booked(v)]) + [Download(v)];
      }
    case Poll(running, published, opens) =>
      if published.Some? {
        LogAppend(log, Restart(published.value));
      }
    case ImageConfirmed => LogAppend(log, Confirmed);
  }

  // Once the budget is spent neither the boot check nor the poll acts on the version again: the
  // history stays as it is until something else is published or confirmed.
  lemma {:induction false} SpentStaysSpent(log: Log, events: seq<Event>, version: string)
    requires Spent(log, version)
    requires forall i :: 0 <= i < |events| ==> StorageWorks(events[i]) && About(events[i], version)
    ensures RunFrom(log, events) == log
    decreases |events|
  {
    hide Newer, Attempts;
    if events != [] {
      assert After(log, events[0]) == log;
      SpentStaysSpent(log, events[1..], version);
    }
  }

  predicate About(ev: Event, version: string)
  {
    match ev
    case Boot(_, env) => env.published == None || env.published == Some(version)
    case Poll(_, published, _) => published == None || published == Some(version)
    case ImageConfirmed => false
  }

  function RunFrom(log: Log, events: seq<Event>): Log
    decreases |events|
  {
    if events == [] then log else RunFrom(After(log, events[0]), events[1..])
  }

  function Boots(running: string, version: string, n: nat): seq<Event>
  {
    seq(n, _ => Boot(running, BootEnv(Some(version), true, true)))
  }

  // A version too long to be read back is downloaded at every boot.
  lemma {:induction false} LongVersionForever(log: Log, running: string, version: string, n: nat)
    requires Newer(version, running) && |version| > STORED_MAX
    ensures var l := RunFrom(log, Boots(running, version, n));
            && Downloads(l, version) >= n
            && (LastBooked(log) == Some(version) ==> Downloads(l, version) == Downloads(log, version) + n)
    decreases n
  {
    hide Newer, Downloads, LastBooked;
    if n > 0 {
      var events := Boots(running, version, n);
      var next := After(log, events[0]);
      assert events[1..] == Boots(running, version, n - 1);
      LogAppend(log, Booked(version));
      LogAppend(log + [Booked(version)], Download(version));
      assert next == (log + [Booked(version)]) + [Download(version)];
      LongVersionForever(next, running, version, n - 1);
    }
  }

  // The budget holds for a version exactly if it is short enough to be read back.
  lemma BudgetHoldsIff(running: string, version: string)
    requires Newer(version, running)
    ensures (forall n :: Downloads(RunFrom([], Boots(running, version, n)), version) <= MAX_OTA_ATTEMPTS)
       <==> |version| <= STORED_MAX
  {
    hide Newer, Downloads;
    if |version| <= STORED_MAX {
      forall n ensures Downloads(RunFrom([], Boots(running, version, n)), version) <= MAX_OTA_ATTEMPTS {
        NothingYet(version);
        WithinBudgetFrom([], Boots(running, version, n), version);
      }
    } else {
      LongVersionForever([], running, version, 4);
    }
  }

  lemma {:induction false} WithinBudgetFrom(log: Log, events: seq<Event>, version: string)
    requires forall i :: 0 <= i < |events| ==> StorageWorks(events[i])
    requires |version| <= STORED_MAX
    requires Downloads(log, version) <= Attempts(log, version) <= MAX_OTA_ATTEMPTS
    ensures Downloads(RunFrom(log, events), version) <= MAX_OTA_ATTEMPTS
    decreases |events|
  {
    if events != [] {
      EventWithinBudget(log, events[0], version);
      WithinBudgetFrom(After(log, events[0]), events[1..], version);
    }
  }

  lemma NothingYet(version: string)
    ensures Downloads([], version) == 0 && Attempts([], version) == 0
  {
  }
}
