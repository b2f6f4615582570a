// The per-connection sender, as a function of its state and of the history of pushed frames.
module NtripTx {
  import opened Words
  import opened RtcmScan
  import opened FrameRing

  const EAGAIN: int := 11
  const EWOULDBLOCK: int := 11
  const ECONNRESET: int := 104

  // What became of a frame of the history, for one sender.
  datatype Fate = Copied | Skipped | Stale

  // What one call of the send callback does. The contract of the callback is that a positive
  // return never exceeds what was offered: `room` is what the socket would take, and no room
  // at all is the 0 return a stream socket must not give.
  datatype SendOutcome = Accept(room: nat) | Refuse(errno: int)

  datatype PollResult = Idle | Progress | WouldBlock | Error

  // Bookkeeping that the C state does not hold: the bytes accepted on this connection, the
  // frames copied on this connection, how many frames had been pushed when it was made, and the
  // fate of every frame below the cursor.
  datatype Log = Log(wire: seq<Byte>, taken: seq<nat>, since: nat, fate: seq<Fate>)

  // Cumulative over the device lifetime.
  datatype Counters = Counters(
    copiedBytes: nat,
    acceptedToLwip: nat,
    sentFrames: nat,
    droppedBytes: nat,
    skippedBytes: nat,
    skippedFrames: nat,
    droppedFramesStale: nat,
    droppedStaleBytes: nat,
    eagainCount: nat,
    reconnects: nat,
    maxQueueAgeMs: nat,
    lastSockErrno: int)

  datatype Sender = Sender(
    cursorSeq: nat,
    cumThrough: nat,
    current: seq<Byte>,
    currentOff: nat,
    currentReceivedMs: nat,
    lastProgressMs: nat,
    totals: Counters,
    log: Log)

  const INIT_SENDER: Sender :=
    Sender(0, 0, [], 0, 0, 0, Counters(0, 0, 0, 0, 0, 0, 0, 0, 0, 0, 0, 0), Log([], [], 0, []))

  predicate HasPending(s: Sender) { s.currentOff < |s.current| }

  function Pending(s: Sender): int { |s.current| - s.currentOff }

  // Difference of two 32-bit millisecond clocks.
  function Elapsed(now: nat, since: nat): nat { (now - since) % UINT32 }

  // The current frame is waiting and nothing was accepted for longer than `timeout`.
  predicate Stalled(s: Sender, now: nat, timeout: nat)
  {
    HasPending(s) && Elapsed(now, s.lastProgressMs) > timeout
  }

  // The current frame is waiting and was received longer than `deadline` ago.
  predicate FrameOverdue(s: Sender, now: nat, deadline: nat)
  {
    HasPending(s) && Elapsed(now, s.currentReceivedMs) > deadline
  }

  // Give up the current frame: its unsent remainder is counted, never resumed.
  function Abort(s: Sender): Sender
  {
    var c := s.totals;
    s.(totals := c.(droppedBytes := c.droppedBytes + (if HasPending(s) then |s.current| - s.currentOff else 0)),
       current := [], currentOff := 0)
  }

  // The end of a connection in the drain loop.
  function CloseConn(s: Sender): Sender
  {
    var t := Abort(s);
    t.(totals := t.totals.(reconnects := t.totals.reconnects + 1))
  }

  function Repeat(f: Fate, n: nat): (r: seq<Fate>)
    ensures |r| == n && forall i :: 0 <= i < n ==> r[i] == f
  {
    seq(n, i => f)
  }

  // Give up every frame from the cursor up to `to`.
  function SkipTo(s: Sender, h: seq<Entry>, to: nat): Sender
    requires s.cursorSeq <= to <= |h| && s.cumThrough <= CumBytes(h[..to])
  {
    var c := s.totals;
    s.(totals := c.(skippedFrames := c.skippedFrames + (to - s.cursorSeq),
                    skippedBytes := c.skippedBytes + (CumBytes(h[..to]) - s.cumThrough)),
       cursorSeq := to,
       cumThrough := CumBytes(h[..to]),
       log := s.log.(fate := s.log.fate + Repeat(Skipped, to - s.cursorSeq)))
  }

  // The cursor never runs ahead of the ring, and counts the bytes before it.
  predicate CursorOk(s: Sender, h: seq<Entry>)
  {
    AllPushable(h) && s.cursorSeq <= |h| && s.cumThrough == CumBytes(h[..s.cursorSeq])
  }

  // A new connection starts with the next new frame.
  function ResetConn(s: Sender, h: seq<Entry>, now: nat): (r: Sender)
    requires CursorOk(s, h)
    ensures CursorOk(r, h)
  {
    CumBytesMonotone(h, s.cursorSeq);
    assert h[..|h|] == h;
    var a := SkipTo(Abort(s), h, |h|);
    a.(lastProgressMs := now, log := a.log.(wire := [], taken := [], since := |h|))
  }

  // Frames that were overwritten before this sender came to them are skipped.
  function JumpToOldest(s: Sender, h: seq<Entry>): (r: Sender)
    requires CursorOk(s, h)
    ensures CursorOk(r, h) && OldestSeq(|h|) <= r.cursorSeq
  {
    var oldest := OldestSeq(|h|);
    if s.cursorSeq < oldest then
      CumBytesMonotone(h[..oldest], s.cursorSeq);
      assert h[..oldest][..s.cursorSeq] == h[..s.cursorSeq];
      SkipTo(s, h, oldest)
    else s
  }

  function DropStale(s: Sender, h: seq<Entry>): (r: Sender)
    requires CursorOk(s, h) && s.cursorSeq < |h|
    ensures CursorOk(r, h)
  {
    var c := s.totals;
    s.(totals := c.(droppedFramesStale := c.droppedFramesStale + 1,
                    droppedStaleBytes := c.droppedStaleBytes + |h[s.cursorSeq].bytes|),
       cumThrough := CumBytes(h[..s.cursorSeq + 1]),
       cursorSeq := s.cursorSeq + 1,
       log := s.log.(fate := s.log.fate + [Stale]))
  }

  function Load(s: Sender, h: seq<Entry>, now: nat): (r: Sender)
    requires CursorOk(s, h) && s.cursorSeq < |h|
    ensures CursorOk(r, h)
  {
    var e := h[s.cursorSeq];
    var age := Elapsed(now, e.receivedMs);
    var c := s.totals;
    s.(current := e.bytes,
       currentOff := 0,
       currentReceivedMs := e.receivedMs,
       lastProgressMs := now,
       cumThrough := CumBytes(h[..s.cursorSeq + 1]),
       cursorSeq := s.cursorSeq + 1,
       totals := c.(copiedBytes := c.copiedBytes + |e.bytes|,
                    maxQueueAgeMs := if age > c.maxQueueAgeMs then age else c.maxQueueAgeMs),
       log := s.log.(taken := s.log.taken + [s.cursorSeq], fate := s.log.fate + [Copied]))
  }

  predicate TooOld(h: seq<Entry>, k: nat, now: nat, stale: nat)
    requires k < |h|
  {
    stale > 0 && Elapsed(now, h[k].receivedMs) > stale
  }

  // Drop frames that aged past `stale`, then load the first that did not.
  function TakeEligible(s: Sender, h: seq<Entry>, now: nat, stale: nat): (r: (Sender, bool))
    requires CursorOk(s, h)
    ensures CursorOk(r.0, h) && (r.1 ==> HasPending(r.0))
    decreases |h| - s.cursorSeq
  {
    if s.cursorSeq >= |h| then (s, false)
    else if TooOld(h, s.cursorSeq, now, stale) then TakeEligible(DropStale(s, h), h, now, stale)
    else (Load(s, h, now), true)
  }

  // tx_copy_next: one critical section of the ring lock.
  function CopyNext(s: Sender, h: seq<Entry>, now: nat, stale: nat): (r: (Sender, bool))
    requires CursorOk(s, h)
    ensures CursorOk(r.0, h) && (r.1 ==> HasPending(r.0))
  {
    TakeEligible(JumpToOldest(s, h), h, now, stale)
  }

  function Min(a: nat, b: nat): nat { if a < b then a else b }

  predicate IsWouldBlock(o: SendOutcome) { o.Refuse? && (o.errno == EAGAIN || o.errno == EWOULDBLOCK) }

  // What is left to do after one send call.
  datatype Verdict = Continue | Return(result: PollResult)

  function SendOnce(s: Sender, o: SendOutcome, now: nat): (r: (Sender, Verdict))
    requires HasPending(s)
  {
    var c := s.totals;
    if o.Accept? && o.room > 0 then
      var n := Min(o.room, |s.current| - s.currentOff);
      var whole := s.currentOff + n == |s.current|;
      (s.(current := if whole then [] else s.current,
          currentOff := if whole then 0 else s.currentOff + n,
          lastProgressMs := now,
          totals := c.(acceptedToLwip := c.acceptedToLwip + n,
                       sentFrames := c.sentFrames + (if whole then 1 else 0)),
          log := s.log.(wire := s.log.wire + s.current[s.currentOff..s.currentOff + n])),
       Continue)
    else if IsWouldBlock(o) then
      (s.(totals := c.(eagainCount := c.eagainCount + 1)), Return(WouldBlock))
    else
      (Abort(s.(totals := c.(lastSockErrno := if o.Refuse? then o.errno else ECONNRESET))), Return(Error))
  }

  // ntrip_tx_poll with the given send outcomes still to come.
  function Poll(s: Sender, h: seq<Entry>, now: nat, stale: nat, outcomes: seq<SendOutcome>, result: PollResult)
    : (r: (Sender, PollResult))
    requires CursorOk(s, h)
    ensures CursorOk(r.0, h)
    decreases |outcomes|
  {
    if outcomes == [] then (s, result)
    else
      var (t, ready) := if HasPending(s) then (s, true) else CopyNext(s, h, now, stale);
      if !ready then (t, result)
      else
        var (u, v) := SendOnce(t, outcomes[0], now);
        match v
        case Return(r) => (u, r)
        case Continue => Poll(u, h, now, stale, outcomes[1..], Progress)
  }
}
