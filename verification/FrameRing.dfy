// The shared frame ring: sixteen slots, one writer that overwrites the oldest frame, and the
// unbounded history of frames it stands for.
module FrameRing {
  import opened Words
  import opened RtcmScan

  const RTCM_RING_SLOTS: nat := 16

  // A frame as it was pushed.
  datatype Entry = Entry(bytes: seq<Byte>, receivedMs: nat)

  // Frame bytes pushed so far; the value of the ring-wide byte counter.
  function CumBytes(h: seq<Entry>): nat
  {
    if h == [] then 0 else CumBytes(h[..|h| - 1]) + |h[|h| - 1].bytes|
  }

  lemma {:induction false} CumBytesMonotone(h: seq<Entry>, k: nat)
    requires k <= |h|
    ensures CumBytes(h[..k]) <= CumBytes(h)
  {
    if k == |h| {
      assert h[..k] == h;
    } else {
      CumBytesMonotone(h[..|h| - 1], k);
      assert h[..|h| - 1][..k] == h[..k];
    }
  }

  lemma CumBytesNext(h: seq<Entry>, k: nat)
    requires k < |h|
    ensures CumBytes(h[..k + 1]) == CumBytes(h[..k]) + |h[k].bytes|
  {
    assert h[..k + 1][..k] == h[..k];
  }

  lemma CumBytesPush(h: seq<Entry>, e: Entry)
    ensures var g := h + [e];
            CumBytes(g) == CumBytes(h) + |e.bytes| && CumBytes(g[..|h| + 1]) == CumBytes(g)
  {
    var g := h + [e];
    assert g[..|h|] == h && g[..|h| + 1] == g;
  }

  // Oldest sequence number still resident when n frames were pushed.
  function OldestSeq(n: nat): nat
  {
    if n > RTCM_RING_SLOTS then n - RTCM_RING_SLOTS else 0
  }

  datatype Slot = Slot(seqNo: nat, receivedMs: nat, len: nat, cumBytes: nat, data: seq<Byte>)

  predicate PushableLen(n: nat) { 6 <= n <= RTCM_MAX_FRAME_B }

  // The slot holds frame number s of the history, and counts the bytes through it.
  predicate Holds(slot: Slot, h: seq<Entry>, s: nat)
    requires s < |h|
  {
    && slot.seqNo == s
    && slot.receivedMs == h[s].receivedMs
    && slot.len == |h[s].bytes| <= |slot.data|
    && slot.data[..slot.len] == h[s].bytes
    && slot.cumBytes == CumBytes(h[..s + 1])
  }

  predicate AllPushable(h: seq<Entry>)
  {
    forall i :: 0 <= i < |h| ==> PushableLen(|h[i].bytes|)
  }

  // The sixteen slots are the last sixteen frames of the history.
  predicate Agrees(slots: seq<Slot>, h: seq<Entry>)
  {
    && |slots| == RTCM_RING_SLOTS
    && (forall i :: 0 <= i < |slots| ==> |slots[i].data| == RTCM_MAX_FRAME_B)
    && (forall s :: OldestSeq(|h|) <= s < |h| ==> Holds(slots[s % RTCM_RING_SLOTS], h, s))
  }

  lemma SlotShape(slots: seq<Slot>, h: seq<Entry>, i: nat)
    requires Agrees(slots, h) && i < RTCM_RING_SLOTS
    ensures |slots| == RTCM_RING_SLOTS && |slots[i].data| == RTCM_MAX_FRAME_B
  {
  }

  // Sixteen consecutive sequence numbers occupy sixteen different slots.
  lemma OtherSlot(s: nat, n: nat)
    requires s < n < s + RTCM_RING_SLOTS
    ensures s % RTCM_RING_SLOTS != n % RTCM_RING_SLOTS
  {
  }

  // Overwriting one slot with the next frame keeps the agreement: exactly the frame that just
  // became too old was lost.
  lemma PushAgrees(slots: seq<Slot>, h: seq<Entry>, e: Entry, written: Slot)
    requires Agrees(slots, h)
    requires |written.data| == RTCM_MAX_FRAME_B && Holds(written, h + [e], |h|)
    ensures Agrees(slots[|h| % RTCM_RING_SLOTS := written], h + [e])
  {
    var g := h + [e];
    var after := slots[|h| % RTCM_RING_SLOTS := written];
    forall s | OldestSeq(|g|) <= s < |g| ensures Holds(after[s % RTCM_RING_SLOTS], g, s) {
      if s < |h| {
        OtherSlot(s, |h|);
        assert Holds(slots[s % RTCM_RING_SLOTS], h, s);
        assert g[..s + 1] == h[..s + 1];
      }
    }
  }

  class Ring {
    const slot: array<Slot>
    var nextSeq: nat
    var cumBytes: nat
    var pushedFrames: nat

    // Every frame ever pushed.
    ghost var history: seq<Entry>

    ghost predicate Valid()
      reads this, slot
    {
      && |history| < UINT32
      && AllPushable(history)
      && nextSeq == pushedFrames == |history|
      && cumBytes == CumBytes(history)
      && Agrees(slot[..], history)
    }

    constructor ()
      ensures Valid() && history == [] && fresh(slot)
    {
      slot := new Slot[RTCM_RING_SLOTS](i => Slot(0, 0, 0, 0, seq(RTCM_MAX_FRAME_B, j => 0)));
      nextSeq, cumBytes, pushedFrames := 0, 0, 0;
      history := [];
    }

    // Never blocks and never fails: the oldest slot is overwritten.
    method Push(frame: seq<Byte>, nowMs: nat)
      requires Valid() && |history| + 1 < UINT32
      modifies this, slot
      ensures Valid()
      ensures history == if PushableLen(|frame|) then old(history) + [Entry(frame, nowMs)] else old(history)
    {
      if !PushableLen(|frame|) {
        return;
      }
      SlotShape(slot[..], history, nextSeq % RTCM_RING_SLOTS);
      hide CumBytes, Agrees;
      ghost var e := Entry(frame, nowMs);
      ghost var h := history + [e];
      var at := nextSeq % RTCM_RING_SLOTS;
      cumBytes := cumBytes + |frame|;
      ghost var before := slot[..];
      slot[at] := Slot(nextSeq, nowMs, |frame|, cumBytes, frame + slot[at].data[|frame|..]);
      CumBytesPush(history, e);
      assert slot[..] == before[at := slot[at]];
      PushAgrees(before, history, e, slot[at]);
      nextSeq := (nextSeq + 1) % UINT32;
      pushedFrames := pushedFrames + 1;
      history := h;
    }

    // The slot a resident sequence number is found in.
    method Lookup(s: nat) returns (e: Slot)
      requires Valid() && OldestSeq(|history|) <= s < |history|
      ensures Holds(e, history, s)
    {
      e := slot[s % RTCM_RING_SLOTS];
      assert e == slot[..][s % RTCM_RING_SLOTS];
    }
  }
}
