// What a sequence of wake-ups does to the sender of one connection, as a function of what arrives and
// of what the socket does in each, and what the reasons to end the connection mean.
module Wakeups {
  import opened Words
  import opened RtcmScan
  import opened FrameRing
  import opened NtripTx
  import opened TxAccounting

  const MAX_SENDS_PER_POLL: nat := 2
  const STALE_DROP_MS: nat := 2000
  const PROGRESS_TIMEOUT_MS: nat := 5000
  const FRAME_DEADLINE_MS: nat := 10000
  const DRAIN_MAX_SPINS: nat := 64
  const PROBE_INTERVAL_MS: nat := 2000

  // One poll: the frames pushed since the one before it, and what its send calls will do.
  datatype Spin = Spin(arrived: seq<Entry>, outcomes: seq<SendOutcome>)

  datatype Wakeup = Wakeup(reconnectAsked: bool, now: nat, spins: seq<Spin>, probeNow: nat, peerAlive: bool)

  datatype Exit = Asked | SendError | NoProgress | Overdue | PeerGone

  // Every frame that arrives fits a slot.
  predicate Fits(w: Wakeup)
  {
    forall i :: 0 <= i < |w.spins| ==> AllPushable(w.spins[i].arrived)
  }

  predicate AllFit(ws: seq<Wakeup>)
  {
    forall i :: 0 <= i < |ws| ==> Fits(ws[i])
  }

  // The history behind a burst of frames.
  function Pushed(h: seq<Entry>, es: seq<Entry>): (r: seq<Entry>)
    ensures h <= r && (AllPushable(h) && AllPushable(es) ==> AllPushable(r))
  {
    if es == [] then h
    else
      var g := Pushed(h, es[..|es| - 1]);
      if |g| + 1 < UINT32 then g + [es[|es| - 1]] else g
  }

  // While sequence numbers last, nothing that arrives is lost.
  lemma {:induction false} AllArrive(h: seq<Entry>, es: seq<Entry>)
    requires |h| + |es| < UINT32
    ensures Pushed(h, es) == h + es
  {
    if es == [] {
      assert h + es == h;
    } else {
      AllArrive(h, es[..|es| - 1]);
      assert h + es == (h + es[..|es| - 1]) + [es[|es| - 1]];
    }
  }

  lemma CursorStays(s: Sender, h: seq<Entry>, g: seq<Entry>)
    requires CursorOk(s, h) && h <= g && AllPushable(g)
    ensures CursorOk(s, g)
  {
    assert g[..s.cursorSeq] == h[..s.cursorSeq];
  }

  function PollOnce(s: Sender, h: seq<Entry>, p: Spin, now: nat): (r: (Sender, seq<Entry>, PollResult))
    requires CursorOk(s, h) && AllPushable(p.arrived)
    ensures CursorOk(r.0, r.1)
  {
    var g := Pushed(h, p.arrived);
    CursorStays(s, h, g);
    var (t, pr) := Poll(s, g, now, STALE_DROP_MS, p.outcomes, Idle);
    (t, g, pr)
  }

  // The polls from the k-th on, as long as each makes progress.
  function DrainFrom(s: Sender, h: seq<Entry>, w: Wakeup, k: nat): (r: (Sender, seq<Entry>, PollResult))
    requires CursorOk(s, h) && Fits(w) && k <= |w.spins|
    ensures CursorOk(r.0, r.1)
    decreases |w.spins| - k
  {
    if k == |w.spins| then (s, h, Progress)
    else
      var (t, g, pr) := PollOnce(s, h, w.spins[k], w.now);
      if pr == Progress then DrainFrom(t, g, w, k + 1) else (t, g, pr)
  }

  // Where the connection stands between two wake-ups.
  datatype Stand = Stand(sender: Sender, hist: seq<Entry>, probed: nat)

  predicate StandOk(st: Stand) { CursorOk(st.sender, st.hist) }

  // One wake-up: drain, then look for reasons to give the connection up.
  function WokenBy(st: Stand, w: Wakeup): (r: (Stand, Exit))
    requires StandOk(st) && Fits(w)
    ensures StandOk(r.0)
  {
    var (t, g, pr) := DrainFrom(st.sender, st.hist, w, 0);
    var stay := Stand(t, g, st.probed);
    if pr == Error then (stay, SendError)
    else if Stalled(t, w.now, PROGRESS_TIMEOUT_MS) then (stay, NoProgress)
    else if FrameOverdue(t, w.now, FRAME_DEADLINE_MS) then (stay, Overdue)
    else if Elapsed(w.probeNow, st.probed) >= PROBE_INTERVAL_MS then
      (Stand(t, g, w.probeNow), if w.peerAlive then Asked else PeerGone)
    else (stay, Asked)
  }

  // All wake-ups one behind the other, whatever they find.
  function Through(st: Stand, ws: seq<Wakeup>): (r: Stand)
    requires StandOk(st) && AllFit(ws)
    ensures StandOk(r)
  {
    if ws == [] then st else WokenBy(Through(st, ws[..|ws| - 1]), ws[|ws| - 1]).0
  }

  // What wake-up `i` ends in.
  function ExitOf(st: Stand, ws: seq<Wakeup>, i: nat): Exit
    requires StandOk(st) && AllFit(ws) && i < |ws|
  {
    WokenBy(Through(st, ws[..i]), ws[i]).1
  }

  // A connection that starts from `st` serves exactly the first `n` of the wake-ups and ends in `exit`:
  // at the first reason to give it up, at the first request to reconnect, or at the last of them.
  predicate ServesTo(st: Stand, ws: seq<Wakeup>, n: nat, exit: Exit)
    requires StandOk(st) && AllFit(ws)
  {
    && n <= |ws|
    && (forall i :: 0 <= i < n ==> !ws[i].reconnectAsked)
    && (forall i :: 0 <= i < n - 1 ==> ExitOf(st, ws, i) == Asked)
    && exit == (if n == 0 then Asked else ExitOf(st, ws, n - 1))
    && (exit == Asked ==> n == |ws| || ws[n].reconnectAsked)
  }

  // Behind the wake-up that gave a reason nothing matters any more: any other continuation is served
  // to the same place, and to no other.
  lemma RestDoesNotMatter(st: Stand, ws: seq<Wakeup>, n: nat, exit: Exit, other: seq<Wakeup>, m: nat, end: Exit)
    requires StandOk(st) && AllFit(ws) && AllFit(other)
    requires ServesTo(st, ws, n, exit) && exit != Asked
    requires n <= |other| && other[..n] == ws[..n] && ServesTo(st, other, m, end)
    ensures m == n && end == exit
  {
    hide WokenBy, Through, StandOk;
    forall i | 0 <= i < n ensures ExitOf(st, other, i) == ExitOf(st, ws, i) && other[i] == ws[i] {
      assert other[i] == other[..n][i] && other[..i] == other[..n][..i] && ws[..i] == ws[..n][..i];
    }
  }

  // -------------------------------------------------------- what a stall means

  lemma ClockFollowsOn(s: Sender, t: Sender, u: Sender, now: nat)
    requires ClockFollows(s, t, now) && ClockFollows(t, u, now)
    ensures ClockFollows(s, u, now)
  {
  }

  lemma {:induction false} DrainMovesClock(s: Sender, h: seq<Entry>, w: Wakeup, k: nat)
    requires CursorOk(s, h) && Fits(w) && k <= |w.spins|
    ensures ClockFollows(s, DrainFrom(s, h, w, k).0, w.now)
    decreases |w.spins| - k
  {
    hide CursorOk, Poll, ClockFollows;
    if k < |w.spins| {
      var p := w.spins[k];
      var g := Pushed(h, p.arrived);
      var (t, _, pr) := PollOnce(s, h, p, w.now);
      CursorStays(s, h, g) by { CursorPushable(s, h); }
      PollMovesClock(s, g, w.now, STALE_DROP_MS, p.outcomes, Idle);
      if pr == Progress {
        DrainMovesClock(t, g, w, k + 1);
        ClockFollowsOn(s, t, DrainFrom(t, g, w, k + 1).0, w.now);
      }
    } else {
      SameClock(s, w.now);
    }
  }

  lemma SameClock(s: Sender, now: nat)
    ensures ClockFollows(s, s, now)
  {
  }

  lemma CursorPushable(s: Sender, h: seq<Entry>)
    requires CursorOk(s, h)
    ensures AllPushable(h)
  {
  }

  lemma WakeMovesClock(st: Stand, w: Wakeup)
    requires StandOk(st) && Fits(w)
    ensures ClockFollows(st.sender, WokenBy(st, w).0.sender, w.now)
  {
    hide CursorOk, DrainFrom, ClockFollows;
    DrainMovesClock(st.sender, st.hist, w, 0);
  }

  // A wake-up that moves anything never ends the connection for want of progress.
  lemma MovedIsNoStall(st: Stand, w: Wakeup)
    requires StandOk(st) && Fits(w)
    ensures Moved(st.sender, WokenBy(st, w).0.sender) ==> WokenBy(st, w).1 != NoProgress
  {
    hide CursorOk, DrainFrom;
    WakeMovesClock(st, w);
  }

  // Clock readings do not go back.
  predicate InOrder(ws: seq<Wakeup>)
  {
    forall i, j :: 0 <= i <= j < |ws| ==> ws[i].now <= ws[j].now
  }

  // Wake-up `i` moved something.
  predicate MovedAt(st: Stand, ws: seq<Wakeup>, i: nat)
    requires StandOk(st) && AllFit(ws) && i < |ws|
  {
    Moved(Through(st, ws[..i]).sender, WokenBy(Through(st, ws[..i]), ws[i]).0.sender)
  }

  lemma {:induction false} ClockSince(st: Stand, ws: seq<Wakeup>, i: nat)
    requires StandOk(st) && AllFit(ws) && InOrder(ws) && i < |ws| && MovedAt(st, ws, i)
    ensures ws[i].now <= Through(st, ws).sender.lastProgressMs <= ws[|ws| - 1].now
  {
    hide CursorOk, WokenBy;
    var n := |ws| - 1;
    var p := ws[..n];
    WakeMovesClock(Through(st, p), ws[n]);
    if i < n {
      assert p[..i] == ws[..i];
      ClockSince(st, p, i);
    }
  }

  // A connection given up for want of progress moved nothing, no byte and no frame, in any wake-up of
  // the last five seconds.
  lemma NoProgressMeansSilence(st: Stand, ws: seq<Wakeup>, n: nat, i: nat)
    requires StandOk(st) && AllFit(ws) && ServesTo(st, ws, n, NoProgress) && InOrder(ws[..n])
    requires i < n && ws[i].now + 5000 >= ws[n - 1].now
    ensures !MovedAt(st, ws, i)
  {
    hide CursorOk, DrainFrom;
    if MovedAt(st, ws, i) {
      var p := ws[..n];
      assert p[..i] == ws[..i] && p[..n - 1] == ws[..n - 1];
      ClockSince(st, p, i);
    }
  }

  // And one that has a frame waiting for more than five seconds since anything last moved is given up.
  lemma StallEndsConnection(st: Stand, w: Wakeup)
    requires StandOk(st) && Fits(w)
    requires var t := WokenBy(st, w).0.sender;
             HasPending(t) && t.lastProgressMs + 5000 < w.now < t.lastProgressMs + UINT32
    ensures WokenBy(st, w).1 in {NoProgress, SendError}
  {
    hide CursorOk, DrainFrom;
  }
}
