// The incremental parser: a fixed buffer that is topped up towards the next decision,
// digested in place, and rescanned after every false preamble.
module RtcmParser {
  import opened Words
  import opened Crc24q
  import opened RtcmScan

  class Parser {
    const buf: array<Byte>
    var have: nat        // bytes accumulated in buf
    var need: nat        // full frame length once the header is parsed, else 0

    var framesOk: nat
    var bytesOk: nat         // bytes of checked frames emitted
    var bytesDiscarded: nat  // garbage between and inside broken frames
    var crcErrors: nat

    const table: Table

    // Everything fed since the last (re-)initialisation.
    ghost var fed: seq<Byte>

    ghost predicate Shape()
      reads this, buf, table, table.entries
    {
      && buf.Length == RTCM_MAX_FRAME_B
      && have <= buf.Length
      && table.Valid() && table.ready
    }

    // Nothing buffered, or a preamble with an incomplete header, or an incomplete frame.
    ghost predicate Settled()
      requires buf.Length == RTCM_MAX_FRAME_B && have <= buf.Length
      reads this, buf
    {
      && (have > 0 ==> Decide(buf[..have]) == Wait)
      && need == if have < 3 then 0 else FrameLen(buf[1], buf[2])
    }

    ghost predicate Valid()
      reads this, buf, table, table.entries
    {
      && Shape() && Settled()
      && var o := Scan(fed);
         && buf[..have] == o.rest
         && framesOk == |o.frames|
         && bytesOk == |Flatten(o.frames)|
         && bytesDiscarded == o.discarded
         && crcErrors == o.crcErrors
    }

    constructor ()
      ensures Valid() && fed == [] && fresh(buf) && fresh(table) && fresh(table.entries)
    {
      buf := new Byte[RTCM_MAX_FRAME_B](i => 0);
      table := new Table();
      have, need := 0, 0;
      framesOk, bytesOk, bytesDiscarded, crcErrors := 0, 0, 0, 0;
      fed := [];
      new;
      table.Build();
    }

    // rtcm_parser_init on a live parser: forget the buffer and the counters.
    method Reinit()
      requires Shape()
      modifies this, buf
      ensures Valid() && fed == []
    {
      forall i | 0 <= i < buf.Length { buf[i] := 0; }
      have, need := 0, 0;
      framesOk, bytesOk, bytesDiscarded, crcErrors := 0, 0, 0, 0;
      fed := [];
    }

    // Shift the buffer down over its first k bytes.
    method Consume(k: nat)
      requires Shape() && k <= have
      modifies this`have, buf
      ensures Shape() && buf[..have] == old(buf[..have])[k..]
    {
      if k < have {
        forall j | 0 <= j < have - k { buf[j] := buf[j + k]; }
      }
      have := have - k;
    }

    // Keep the buffer from its first preamble behind `from` on; what goes is garbage.
    method HuntInBuf(from: nat)
      requires Shape() && from <= have
      modifies this`have, this`need, this`bytesDiscarded, buf
      ensures Shape() && need == 0
      ensures have > 0 ==> buf[0] == PREAMBLE
      ensures have <= old(have) - from
      ensures bytesDiscarded == old(bytesDiscarded) + old(have) - have
      ensures Skipped(old(buf[..have])[from..], buf[..have])
    {
      ghost var before := buf[..have];
      var i := from;
      while i < have && buf[i] != PREAMBLE
        invariant from <= i <= have
        invariant forall j :: from <= j < i ==> buf[j] != PREAMBLE
      {
        i := i + 1;
      }
      assert forall j :: from <= j < i ==> before[j] != PREAMBLE;
      bytesDiscarded := bytesDiscarded + i;
      Consume(i);
      need := 0;
      SkippedRun(before, from, i);
    }

    // The trailer of the buffered frame against the computed checksum.
    method TrailerMatches() returns (ok: bool)
      requires Shape() && 6 <= need <= have
      ensures ok == CrcOk(buf[..need])
    {
      var want := BigEndian24(buf[need - 3], buf[need - 2], buf[need - 1]);
      var crc := table.Checksum(buf, need - 3);
      assert buf[..need][..need - 3] == buf[..need - 3];
      TrailerTest(buf[..need], crc, want);
      ok := crc == want;
    }

    // Account the frame at the front of the buffer and drop it, then resynchronise.
    method EmitFrame()
      requires Shape() && 6 <= need <= have
      modifies this`have, this`need, this`framesOk, this`bytesOk, this`bytesDiscarded, buf
      ensures Shape() && need == 0
      ensures have > 0 ==> buf[0] == PREAMBLE
      ensures have <= old(have) - old(need)
      ensures framesOk == old(framesOk) + 1 && bytesOk == old(bytesOk) + old(need)
      ensures bytesDiscarded == old(bytesDiscarded) + old(have) - old(need) - have
      ensures Skipped(old(buf[..have])[old(need)..], buf[..have])
    {
      framesOk := framesOk + 1;
      bytesOk := bytesOk + need;
      Consume(need);
      need := 0;
      ghost var t := buf[..have];
      if have > 0 && buf[0] != PREAMBLE {
        HuntInBuf(0);
        assert t[0..] == t;
      }
    }

    // One round of the digest loop: decide what the front of the buffer is, and act on it.
    method Digest() returns (frames: seq<seq<Byte>>, waiting: bool)
      requires Shape() && (have > 0 ==> buf[0] == PREAMBLE)
      modifies this`have, this`need, this`framesOk, this`bytesOk, this`bytesDiscarded, this`crcErrors, buf
      ensures Shape() && (have > 0 ==> buf[0] == PREAMBLE)
      ensures framesOk == old(framesOk) + |frames|
      ensures bytesOk == old(bytesOk) + |Flatten(frames)|
      ensures var s := old(buf[..have]);
              if waiting then
                && (s == [] || Decide(s).Wait?) && Settled() && frames == []
                && buf[..have] == s && bytesDiscarded == old(bytesDiscarded) && crcErrors == old(crcErrors)
              else
                && s != [] && !Decide(s).Wait? && frames == Head(s).0.frames
                && have < |s| && Skipped(Head(s).1, buf[..have])
                && bytesDiscarded == old(bytesDiscarded) + Head(s).0.discarded + |Head(s).1| - have
                && crcErrors == old(crcErrors) + Head(s).0.crcErrors
    {
      hide Scan, CrcOk;
      frames, waiting := [], true;
      ghost var s := buf[..have];
      if have < 3 {
        need := 0;
        return;
      }
      // A nonzero reserved bit: a false preamble, not a frame.
      if buf[1] >= 4 {
        HuntInBuf(1);
        return [], false;
      }
      need := FrameLen(buf[1], buf[2]);
      if have < need {
        return;
      }
      waiting := false;
      assert s[..need] == buf[..need];
      var ok := TrailerMatches();
      if ok {
        frames := [buf[..need]];
        assert Flatten(frames) == frames[0];
        EmitFrame();
      } else {
        crcErrors := crcErrors + 1;
        HuntInBuf(1);
      }
    }

    // Decide the front of the buffer again and again until it is undecided or empty.
    method Process() returns (frames: seq<seq<Byte>>)
      requires Shape() && (have > 0 ==> buf[0] == PREAMBLE)
      modifies this`have, this`need, this`framesOk, this`bytesOk, this`bytesDiscarded, this`crcErrors, buf
      ensures Shape() && Settled()
      ensures var o := Scan(old(buf[..have]));
              && frames == o.frames && buf[..have] == o.rest
              && bytesDiscarded == old(bytesDiscarded) + o.discarded
              && crcErrors == old(crcErrors) + o.crcErrors
      ensures framesOk == old(framesOk) + |frames|
      ensures bytesOk == old(bytesOk) + |Flatten(frames)|
    {
      hide Scan, Decide;
      frames := [];
      ghost var whole := Scan(buf[..have]);
      while true
        invariant Shape() && (have > 0 ==> buf[0] == PREAMBLE)
        invariant Progress(whole, frames, bytesDiscarded - old(bytesDiscarded), crcErrors - old(crcErrors),
                           buf[..have])
        invariant framesOk == old(framesOk) + |frames|
        invariant bytesOk == old(bytesOk) + |Flatten(frames)|
        decreases have
      {
        ghost var s := buf[..have];
        var emitted, waiting := Digest();
        if waiting {
          ScanWait(s);
          return;
        }
        ProgressHead(whole, frames, bytesDiscarded - old(bytesDiscarded), crcErrors - old(crcErrors), s, buf[..have]);
        FlattenAppend(frames, emitted);
        frames := frames + emitted;
      }
    }

    // With nothing buffered: skip input up to a preamble, which is the first byte kept.
    method HuntInput(data: seq<Byte>, from: nat) returns (i: nat)
      requires Shape() && Settled() && have == 0 && from <= |data|
      modifies this`have, this`bytesDiscarded, buf
      ensures Shape() && Settled() && have <= 1
      ensures from <= i <= |data| && (have == 0 ==> i == |data|) && (have == 1 ==> i > from)
      ensures bytesDiscarded + have + |data| - i == old(bytesDiscarded) + |data| - from
      ensures Skipped(data[from..], buf[..have] + data[i..])
    {
      hide Scan, CrcOk;
      i := from;
      while i < |data| && data[i] != PREAMBLE
        invariant Shape() && Settled() && have == 0
        invariant from <= i <= |data|
        invariant forall j :: from <= j < i ==> data[j] != PREAMBLE
        invariant bytesDiscarded == old(bytesDiscarded) + (i - from)
      {
        bytesDiscarded := bytesDiscarded + 1;
        i := i + 1;
      }
      SkippedRun(data, from, i);
      if i >= |data| {
        assert buf[..have] + data[i..] == data[i..];
        return;
      }
      buf[0] := PREAMBLE;
      have := 1;
      assert buf[..have] + data[i + 1..] == data[i..];
      i := i + 1;
    }

    // Take as much input as the next decision needs, as far as there is any.
    method TopUp(data: seq<Byte>, from: nat) returns (i: nat, full: bool)
      requires Shape() && Settled() && have > 0 && from <= |data|
      modifies this`have, buf
      ensures Shape() && have > 0 && buf[0] == PREAMBLE
      ensures from <= i <= |data| && (from < |data| ==> from < i)
      ensures buf[..have] + data[i..] == old(buf[..have]) + data[from..]
      ensures !full ==> i == |data| && Settled()
    {
      var target := if have < 3 then 3 else need;
      var want := target - have;
      var avail := |data| - from;
      var take := if want < avail then want else avail;
      forall j | 0 <= j < take { buf[have + j] := data[from + j]; }
      have := have + take;
      i := from + take;
      full := have == target;
    }

    // Feed a chunk; the frames completed by it are returned in the order the callback sees them.
    method Feed(data: seq<Byte>) returns (frames: seq<seq<Byte>>)
      requires Valid()
      modifies this, buf
      ensures Valid()
      ensures fed == old(fed) + data
      ensures Scan(fed).frames == Scan(old(fed)).frames + frames
    {
      hide Scan, CrcOk;
      frames := [];
      ghost var whole := Scan(buf[..have] + data);
      var i := 0;
      assert data[0..] == data;
      while i < |data|
        invariant Shape() && Settled() && i <= |data| && fed == old(fed)
        invariant Progress(whole, frames, bytesDiscarded - old(bytesDiscarded), crcErrors - old(crcErrors),
                           buf[..have] + data[i..])
        invariant framesOk == old(framesOk) + |frames|
        invariant bytesOk == old(bytesOk) + |Flatten(frames)|
      {
        ghost var entry := i;
        if have == 0 {
          assert buf[..have] + data[i..] == data[i..];
          i := HuntInput(data, i);
          ProgressSkip(whole, frames, bytesDiscarded - old(bytesDiscarded), crcErrors - old(crcErrors),
                       data[entry..], buf[..have] + data[i..]);
          if have == 0 {
            break;
          }
        }
        var full;
        i, full := TopUp(data, i);
        if full {
          ghost var b := buf[..have];
          ghost var d, e := bytesDiscarded - old(bytesDiscarded), crcErrors - old(crcErrors);
          var more := Process();
          ProgressScan(whole, frames, d, e, b, data[i..]);
          FlattenAppend(frames, more);
          frames := frames + more;
        }
      }
      assert buf[..have] + data[i..] == buf[..have];
      Finish(old(fed), data, whole, frames, bytesDiscarded - old(bytesDiscarded), crcErrors - old(crcErrors),
             buf[..have]);
      fed := fed + data;
    }
  }

  // What is emitted and counted so far, plus what scanning the remainder will give, is the whole.
  ghost predicate Progress(whole: Outcome, frames: seq<seq<Byte>>, discarded: int, crcErrors: int, left: seq<Byte>)
  {
    && whole.frames == frames + Scan(left).frames
    && whole.discarded == discarded + Scan(left).discarded
    && whole.crcErrors == crcErrors + Scan(left).crcErrors
    && whole.rest == Scan(left).rest
  }

  // Afterwards the scan went past the bytes between s and t, the first of which were decided.
  lemma ProgressHead(whole: Outcome, frames: seq<seq<Byte>>, discarded: int, crcErrors: int,
                     s: seq<Byte>, t: seq<Byte>)
    requires s != [] && !Decide(s).Wait? && Skipped(Head(s).1, t)
    requires Progress(whole, frames, discarded - Head(s).0.discarded - (|Head(s).1| - |t|),
                      crcErrors - Head(s).0.crcErrors, s)
    ensures Progress(whole, frames + Head(s).0.frames, discarded, crcErrors, t)
  {
    hide Scan, Decide, Head;
    ScanHead(s);
    var h := Head(s).0;
    assert whole.frames == (frames + h.frames) + Scan(Head(s).1).frames;
  }

  lemma ProgressSkip(whole: Outcome, frames: seq<seq<Byte>>, discarded: int, crcErrors: int,
                     s: seq<Byte>, t: seq<Byte>)
    requires Skipped(s, t) && Progress(whole, frames, discarded - (|s| - |t|), crcErrors, s)
    ensures Progress(whole, frames, discarded, crcErrors, t)
  {
  }

  lemma ProgressScan(whole: Outcome, frames: seq<seq<Byte>>, discarded: int, crcErrors: int,
                     b: seq<Byte>, tail: seq<Byte>)
    requires Progress(whole, frames, discarded, crcErrors, b + tail)
    ensures Progress(whole, frames + Scan(b).frames, discarded + Scan(b).discarded,
                     crcErrors + Scan(b).crcErrors, Scan(b).rest + tail)
  {
    ScanAppend(b, tail);
  }

  // At the end of a chunk only an undecided rest is left, and it is the rest of the whole stream.
  lemma Finish(fed: seq<Byte>, data: seq<Byte>, whole: Outcome, frames: seq<seq<Byte>>,
               discarded: int, crcErrors: int, left: seq<Byte>)
    requires whole == Scan(Scan(fed).rest + data)
    requires Progress(whole, frames, discarded, crcErrors, left)
    requires left != [] ==> Decide(left).Wait?
    ensures var o := Scan(fed + data);
            && o.frames == Scan(fed).frames + frames
            && o.discarded == Scan(fed).discarded + discarded
            && o.crcErrors == Scan(fed).crcErrors + crcErrors
            && o.rest == left
            && |Flatten(o.frames)| == |Flatten(Scan(fed).frames)| + |Flatten(frames)|
  {
    ScanAppend(fed, data);
    FlattenAppend(Scan(fed).frames, frames);
  }

  // The second string is the first without some bytes the scan discards.
  ghost predicate Skipped(s: seq<Byte>, t: seq<Byte>)
  {
    && |t| <= |s|
    && Scan(s).frames == Scan(t).frames
    && Scan(s).discarded == |s| - |t| + Scan(t).discarded
    && Scan(s).crcErrors == Scan(t).crcErrors
    && Scan(s).rest == Scan(t).rest
  }

  lemma SkippedRun(s: seq<Byte>, from: nat, to: nat)
    requires from <= to <= |s| && forall j :: from <= j < to ==> s[j] != PREAMBLE
    ensures Skipped(s[from..], s[to..])
  {
    SkipRun(s[from..], to - from);
    assert s[from..][to - from..] == s[to..];
  }

  // Comparing the checksum with the trailer as numbers is comparing them as polynomials.
  lemma TrailerTest(f: seq<Byte>, crc: nat, want: nat)
    requires |f| >= 3
    requires crc < 0x1000000 && Coeffs(crc) == Crc(f[..|f| - 3])
    requires want == BigEndian24(f[|f| - 3], f[|f| - 2], f[|f| - 1])
    ensures crc == want <==> CrcOk(f)
  {
    var n := |f|;
    TrailerBits(f[n - 3], f[n - 2], f[n - 1]);
    assert f[n - 3..] == [f[n - 3], f[n - 2], f[n - 1]];
    ShiftRight24(crc);
    ShiftRight24(want);
    if Coeffs(crc) == Coeffs(want) {
      LowBitsInjective(crc, want, 24);
    }
  }
}
