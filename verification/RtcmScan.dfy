// What the RTCM3 parser means: a recursive scan of the whole byte stream.
module RtcmScan {
  import opened Words
  import opened Polynomials
  import opened Crc24q

  const PREAMBLE: Byte := 0xD3
  const RTCM_MAX_FRAME_B: nat := 1029

  // Header + payload + trailer, from the ten-bit length field in bytes 1 and 2.
  function FrameLen(b1: Byte, b2: Byte): (n: nat)
    ensures 6 <= n <= RTCM_MAX_FRAME_B
  {
    (b1 % 4) * 0x100 + b2 + 6
  }

  // The last three bytes are the checksum of everything before them.
  predicate CrcOk(f: seq<Byte>)
    requires |f| >= 3
  {
    Crc(f[..|f| - 3]) == Bits(f[|f| - 3..])
  }

  // A complete frame: preamble, zero reserved bits, declared length, checksum.
  predicate IsFrame(f: seq<Byte>)
  {
    && 6 <= |f|
    && f[0] == PREAMBLE
    && f[1] < 4
    && |f| == FrameLen(f[1], f[2])
    && CrcOk(f)
  }

  datatype Decision = Skip | BadCrc | Emit(len: nat) | Wait

  // What the bytes at the front of the stream are.
  function Decide(s: seq<Byte>): (d: Decision)
    requires s != []
    ensures d.Emit? ==> 6 <= d.len <= |s| && IsFrame(s[..d.len])
    ensures d.Wait? ==> s[0] == PREAMBLE && |s| < RTCM_MAX_FRAME_B
  {
    if s[0] != PREAMBLE then Skip
    else if |s| < 3 then Wait
    else if s[1] >= 4 then Skip
    else
      var n := FrameLen(s[1], s[2]);
      if |s| < n then Wait
      else if CrcOk(s[..n]) then Emit(n)
      else BadCrc
  }

  datatype Outcome = Outcome(frames: seq<seq<Byte>>, discarded: nat, crcErrors: nat, rest: seq<Byte>)

  function Scan(s: seq<Byte>): Outcome
  {
    if s == [] then Outcome([], 0, 0, [])
    else match Decide(s)
      case Wait => Outcome([], 0, 0, s)
      case Skip =>
        var o := Scan(s[1..]);
        o.(discarded := o.discarded + 1)
      case BadCrc =>
        var o := Scan(s[1..]);
        o.(discarded := o.discarded + 1, crcErrors := o.crcErrors + 1)
      case Emit(n) =>
        var o := Scan(s[n..]);
        o.(frames := [s[..n]] + o.frames)
  }

  // First one outcome, then another one that started where the first stopped.
  function Then(a: Outcome, b: Outcome): Outcome
  {
    Outcome(a.frames + b.frames, a.discarded + b.discarded, a.crcErrors + b.crcErrors, b.rest)
  }

  function Flatten(frames: seq<seq<Byte>>): seq<Byte>
  {
    if frames == [] then [] else Flatten(frames[..|frames| - 1]) + frames[|frames| - 1]
  }

  lemma {:induction false} FlattenAppend(a: seq<seq<Byte>>, b: seq<seq<Byte>>)
    ensures Flatten(a + b) == Flatten(a) + Flatten(b)
  {
    if b == [] {
      assert a + b == a;
    } else {
      var s := a + b;
      assert s[..|s| - 1] == a + b[..|b| - 1];
      FlattenAppend(a, b[..|b| - 1]);
    }
  }

  lemma ThenAssoc(a: Outcome, b: Outcome, c: Outcome)
    ensures Then(Then(a, b), c) == Then(a, Then(b, c))
  {
  }

  // The first decision, as a scan of its own.
  function Head(s: seq<Byte>): (r: (Outcome, seq<Byte>))
    requires s != [] && !Decide(s).Wait?
    ensures |r.1| < |s|
  {
    var d := Decide(s);
    if d.Emit? then (Outcome([s[..d.len]], 0, 0, []), s[d.len..])
    else (Outcome([], 1, if d.BadCrc? then 1 else 0, []), s[1..])
  }

  lemma ScanHead(s: seq<Byte>)
    requires s != [] && !Decide(s).Wait?
    ensures Scan(s) == Then(Head(s).0, Scan(Head(s).1))
  {
  }

  lemma ScanWait(s: seq<Byte>)
    requires s == [] || Decide(s).Wait?
    ensures Scan(s) == Outcome([], 0, 0, s)
  {
  }

  lemma DecideStable(a: seq<Byte>, b: seq<Byte>)
    requires a != [] && !Decide(a).Wait?
    ensures Decide(a + b) == Decide(a) && Head(a + b) == (Head(a).0, Head(a).1 + b)
  {
    var s := a + b;
    if a[0] == PREAMBLE && |a| >= 3 && a[1] < 4 {
      var n := FrameLen(a[1], a[2]);
      assert s[..n] == a[..n];
      assert |a| >= n && s[n..] == a[n..] + b;
    }
    assert s[1..] == a[1..] + b;
  }

  // Chunking does not matter: scanning in pieces, carrying the rest over, is scanning the whole.
  lemma {:induction false} ScanAppend(a: seq<Byte>, b: seq<Byte>)
    ensures Scan(a + b) == Then(Scan(a), Scan(Scan(a).rest + b))
    decreases |a|
  {
    if a == [] {
      assert a + b == b;
    } else if Decide(a).Wait? {
    } else {
      var (h, t) := Head(a);
      DecideStable(a, b);
      ScanHead(a);
      ScanHead(a + b);
      ScanAppend(t, b);
      ThenAssoc(h, Scan(t), Scan(Scan(t).rest + b));
    }
  }

  // What a scan leaves is undecided, so scanning it again does nothing.
  lemma {:induction false} RestIsSettled(s: seq<Byte>)
    ensures var r := Scan(s).rest; r == [] || Decide(r).Wait?
    decreases |s|
  {
    if s != [] && !Decide(s).Wait? {
      ScanHead(s);
      RestIsSettled(Head(s).1);
    }
  }

  // Every byte is in an emitted frame, discarded, or still buffered; every emitted frame is one.
  lemma {:induction false} ScanConserves(s: seq<Byte>)
    ensures |Flatten(Scan(s).frames)| + Scan(s).discarded + |Scan(s).rest| == |s|
    ensures forall f :: f in Scan(s).frames ==> IsFrame(f)
    ensures Scan(s).rest == s[|s| - |Scan(s).rest|..]
    decreases |s|
  {
    hide Scan, IsFrame, Flatten, Head, Decide;
    if s != [] && !Decide(s).Wait? {
      var (h, t) := Head(s);
      HeadConserves(s);
      ScanHead(s);
      ScanConserves(t);
      FlattenAppend(h.frames, Scan(t).frames);
    } else {
      ScanWait(s);
      NothingFlat();
    }
  }

  lemma HeadConserves(s: seq<Byte>)
    requires s != [] && !Decide(s).Wait?
    ensures var (h, t) := Head(s);
            && |Flatten(h.frames)| + h.discarded + |t| == |s| && t == s[|s| - |t|..]
            && forall f :: f in h.frames ==> IsFrame(f)
  {
    hide IsFrame;
    NothingFlat();
    var h := Head(s).0;
    assert h.frames == [] || Flatten(h.frames) == Flatten([]) + h.frames[0];
  }

  lemma NothingFlat()
    ensures Flatten([]) == []
  {
  }

  // Bytes that are not preambles are skipped one by one.
  lemma {:induction false} SkipRun(s: seq<Byte>, k: nat)
    requires k <= |s| && forall i :: 0 <= i < k ==> s[i] != PREAMBLE
    ensures Scan(s) == Then(Outcome([], k, 0, []), Scan(s[k..]))
  {
    if k == 0 {
      assert s[0..] == s;
    } else {
      SkipRun(s[1..], k - 1);
      assert s[1..][k - 1..] == s[k..];
    }
  }

  // ------------------------------------------------------------ encoding

  // The number whose n low bits are p.
  function FromBits(p: Poly): nat
  {
    if p == [] then 0 else 2 * FromBits(p[..|p| - 1]) + if p[|p| - 1] then 1 else 0
  }

  lemma {:induction false} FromBitsBack(p: Poly)
    ensures LowBits(FromBits(p), |p|) == p
    ensures FromBits(p) < Pow2(|p|)
  {
    if p != [] {
      var n := |p| - 1;
      var c := FromBits(p);
      FromBitsBack(p[..n]);
      assert c / 2 == FromBits(p[..n]) && (c % 2 == 1) == p[n];
      LowBitsNext(c, |p|);
      assert p == p[..n] + [p[n]];
    }
  }

  function ByteOf(p: Poly): (b: Byte)
    requires |p| == 8
    ensures LowBits(b, 8) == p
  {
    FromBitsBack(p);
    assert Pow2(8) == 0x100;
    FromBits(p)
  }

  function Trailer(message: seq<Byte>): (t: seq<Byte>)
    ensures |t| == 3 && Bits(t) == Crc(message)
  {
    var r := Crc(message);
    var a, b, c := ByteOf(r[..8]), ByteOf(r[8..16]), ByteOf(r[16..]);
    ThreeBytes(a, b, c);
    assert r == r[..8] + r[8..16] + r[16..];
    [a, b, c]
  }

  // A payload as it is sent.
  function Encode(payload: seq<Byte>): seq<Byte>
    requires |payload| < 0x400
  {
    var message := [PREAMBLE, |payload| / 0x100, |payload| % 0x100] + payload;
    message + Trailer(message)
  }

  // Every payload that fits the length field is sent as a frame, and the parser finds exactly that
  // frame in front of anything.
  lemma EncodedIsFrame(payload: seq<Byte>, tail: seq<Byte>)
    requires |payload| < 0x400
    ensures IsFrame(Encode(payload)) && Encode(payload)[3..3 + |payload|] == payload
    ensures Encode(payload)[..3] == [0xD3, |payload| / 0x100, |payload| % 0x100]
    ensures Scan(Encode(payload) + tail) == Then(Outcome([Encode(payload)], 0, 0, []), Scan(tail))
  {
    hide Scan, IsFrame, Decide, Encode;
    EncodedChecks(payload);
    FrameDecided(Encode(payload), tail);
  }

  lemma EncodedChecks(payload: seq<Byte>)
    requires |payload| < 0x400
    ensures IsFrame(Encode(payload)) && Encode(payload)[3..3 + |payload|] == payload
    ensures Encode(payload)[..3] == [0xD3, |payload| / 0x100, |payload| % 0x100]
  {
    hide Crc, Bits, Trailer;
    var n := |payload|;
    var message := [PREAMBLE, n / 0x100, n % 0x100] + payload;
    var f := Encode(payload);
    assert f[..|f| - 3] == message && f[|f| - 3..] == Trailer(message);
    LengthField(n);
  }

  // And nothing else is a frame: every frame is its payload, encoded.
  lemma FrameIsEncoded(f: seq<Byte>)
    requires IsFrame(f)
    ensures |f[3..|f| - 3]| < 0x400 && f == Encode(f[3..|f| - 3])
  {
    hide Crc, Bits, Trailer;
    var n: nat := |f| - 6;
    var message, payload := f[..|f| - 3], f[3..|f| - 3];
    LengthBack(f[1], f[2], n);
    assert message == [PREAMBLE, n / 0x100, n % 0x100] + payload;
    BitsInjective(f[|f| - 3..], Trailer(message));
    assert f == message + f[|f| - 3..];
  }

  lemma LengthBack(b1: Byte, b2: Byte, n: nat)
    requires b1 < 4 && FrameLen(b1, b2) == n + 6
    ensures n < 0x400 && b1 == n / 0x100 && b2 == n % 0x100
  {
  }

  lemma LengthField(n: nat)
    requires n < 0x400
    ensures 0 <= n / 0x100 < 4 && 0 <= n % 0x100 < 0x100 && FrameLen(n / 0x100, n % 0x100) == n + 6
  {
  }

  // ------------------------------------------------------- clean streams

  // The beginning of a frame that is not complete yet.
  ghost predicate IsPartialFrame(p: seq<Byte>)
  {
    exists f :: IsFrame(f) && |p| < |f| && p == f[..|p|]
  }

  lemma FrameDecided(f: seq<Byte>, t: seq<Byte>)
    requires IsFrame(f)
    ensures Decide(f + t) == Emit(|f|) && Scan(f + t) == Then(Outcome([f], 0, 0, []), Scan(t))
  {
    var s := f + t;
    assert s[..|f|] == f && s[|f|..] == t;
    ScanHead(s);
  }

  lemma PartialFrameWaits(p: seq<Byte>)
    requires IsPartialFrame(p)
    ensures Scan(p) == Outcome([], 0, 0, p)
  {
    var f :| IsFrame(f) && |p| < |f| && p == f[..|p|];
    if p != [] {
      assert p[0] == f[0];
      if |p| >= 3 {
        assert p[1] == f[1] && p[2] == f[2];
      }
    }
  }

  // Whole frames followed by the beginning of one more parse back to exactly those frames,
  // with nothing discarded.
  lemma {:induction false} CleanStream(frames: seq<seq<Byte>>, p: seq<Byte>)
    requires forall f :: f in frames ==> IsFrame(f)
    requires IsPartialFrame(p)
    ensures Scan(Flatten(frames) + p) == Outcome(frames, 0, 0, p)
  {
    PartialFrameWaits(p);
    CleanFrames(frames, p);
    assert frames + [] == frames;
  }

  lemma {:induction false} CleanFrames(frames: seq<seq<Byte>>, tail: seq<Byte>)
    requires forall f :: f in frames ==> IsFrame(f)
    ensures Scan(Flatten(frames) + tail) == Then(Outcome(frames, 0, 0, []), Scan(tail))
  {
    if frames == [] {
      assert [] + tail == tail;
    } else {
      var n := |frames| - 1;
      assert Flatten(frames) + tail == Flatten(frames[..n]) + (frames[n] + tail);
      CleanFrames(frames[..n], frames[n] + tail);
      FrameDecided(frames[n], tail);
      assert frames == frames[..n] + [frames[n]];
      assert forall o: Outcome :: Then(Outcome(frames[..n], 0, 0, []), Then(Outcome([frames[n]], 0, 0, []), o))
                               == Then(Outcome(frames, 0, 0, []), o) by {
        forall o: Outcome ensures Then(Outcome(frames[..n], 0, 0, []), Then(Outcome([frames[n]], 0, 0, []), o))
                               == Then(Outcome(frames, 0, 0, []), o) {
          ThenAssoc(Outcome(frames[..n], 0, 0, []), Outcome([frames[n]], 0, 0, []), o);
        }
      }
    }
  }

  // --------------------------------------------------- resynchronisation

  // No byte of the garbage is mistaken for the start of a complete frame, and every length it
  // could pretend to have is already in the stream.
  predicate NoFrameStarts(s: seq<Byte>, k: nat)
    requires k <= |s|
  {
    forall i :: 0 <= i < k ==> !Decide(s[i..]).Wait? && !Decide(s[i..]).Emit?
  }

  // Garbage without a frame in it costs exactly itself: the scan then continues as if it had
  // never been there.
  lemma {:induction false} GarbageSkipped(s: seq<Byte>, k: nat)
    requires k <= |s| && NoFrameStarts(s, k)
    ensures Scan(s).frames == Scan(s[k..]).frames
    ensures Scan(s).discarded == k + Scan(s[k..]).discarded
    ensures Scan(s).rest == Scan(s[k..]).rest
  {
    if k == 0 {
      assert s[0..] == s;
    } else {
      assert s[0..] == s;
      assert !Decide(s).Wait? && !Decide(s).Emit?;
      forall i | 0 <= i < k - 1 ensures !Decide(s[1..][i..]).Wait? && !Decide(s[1..][i..]).Emit? {
        assert s[1..][i..] == s[i + 1..];
      }
      GarbageSkipped(s[1..], k - 1);
      assert s[1..][k - 1..] == s[k..];
      ScanHead(s);
    }
  }

  // A false preamble can only swallow bytes that have not arrived: once 1029 bytes follow it,
  // it is decided.
  lemma LongEnoughDecides(s: seq<Byte>, g: nat)
    requires g <= |s| && |s| - g >= RTCM_MAX_FRAME_B
    ensures forall i :: 0 <= i < g ==> !Decide(s[i..]).Wait?
  {
  }

  lemma NoStarts(s: seq<Byte>, g: nat)
    requires g <= |s| && |s| - g >= RTCM_MAX_FRAME_B
    requires forall i :: 0 <= i < g ==> !Decide(s[i..]).Emit?
    ensures NoFrameStarts(s, g)
  {
    hide Decide;
    LongEnoughDecides(s, g);
  }

  lemma Behind(g: seq<Byte>, f: seq<Byte>, t: seq<Byte>)
    ensures (g + f + t)[|g|..] == f + t
  {
  }

  // A valid frame behind garbage is emitted intact, whatever follows, as soon as the stream
  // holds a maximal frame length from its first byte on.
  lemma Resynchronises(g: seq<Byte>, f: seq<Byte>, t: seq<Byte>)
    requires IsFrame(f) && |f| + |t| >= RTCM_MAX_FRAME_B
    requires forall i :: 0 <= i < |g| ==> !Decide((g + f + t)[i..]).Emit?
    ensures Scan(g + f + t).frames == [f] + Scan(t).frames
    ensures Scan(g + f + t).discarded == |g| + Scan(t).discarded
    ensures Scan(g + f + t).rest == Scan(t).rest
  {
    hide Scan, Decide, IsFrame, NoFrameStarts;
    var s := g + f + t;
    NoStarts(s, |g|);
    GarbageSkipped(s, |g|);
    Behind(g, f, t);
    FrameDecided(f, t);
  }

  // ------------------------------------------------------ error detection

  // The trailer test is divisibility of the whole frame by the generator.
  lemma CrcOkIffDivisible(f: seq<Byte>)
    requires |f| >= 3
    ensures CrcOk(f) <==> Remainder(Bits(f)) == Zeros(24)
  {
    hide Remainder, Bits, Crc, Zeros;
    var message, trailer := f[..|f| - 3], f[|f| - 3..];
    assert f == message + trailer;
    TrailerDivisible(f, message, trailer);
  }

  lemma TrailerDivisible(f: seq<Byte>, message: seq<Byte>, trailer: seq<Byte>)
    requires |trailer| == 3 && f == message + trailer
    ensures Crc(message) == Bits(trailer) <==> Remainder(Bits(f)) == Zeros(24)
  {
    BitsAppend(message, trailer);
    TrailerMatchesIffDivisible(Bits(message), Bits(trailer));
  }

  // Two strings that differ only within three adjacent bytes cannot both check.
  lemma AdjacentDamageDetected(a: seq<Byte>, b: seq<Byte>, w: nat)
    requires |a| == |b| && w + 3 <= |a|
    requires a[..w] == b[..w] && a[w + 3..] == b[w + 3..]
    requires CrcOk(a) && CrcOk(b)
    ensures a == b
  {
    hide Bits, Remainder, CrcOk;
    CrcOkIffDivisible(a);
    CrcOkIffDivisible(b);
    SplitBits(a, w);
    SplitBits(b, w);
    BurstDetected(Bits(a[..w]), Bits(a[w..w + 3]), Bits(b[w..w + 3]), Bits(a[w + 3..]));
    BitsInjective(a[w..w + 3], b[w..w + 3]);
    InThree(a, w);
    InThree(b, w);
  }

  lemma SplitBits(a: seq<Byte>, w: nat)
    requires w + 3 <= |a|
    ensures Bits(a) == Bits(a[..w]) + Bits(a[w..w + 3]) + Bits(a[w + 3..])
  {
    hide Bits;
    InThree(a, w);
    BitsOfThree(a[..w], a[w..w + 3], a[w + 3..]);
  }

  lemma InThree(a: seq<Byte>, w: nat)
    requires w + 3 <= |a|
    ensures a == a[..w] + a[w..w + 3] + a[w + 3..]
  {
  }

  lemma BitsOfThree(x: seq<Byte>, y: seq<Byte>, z: seq<Byte>)
    ensures Bits(x + y + z) == Bits(x) + Bits(y) + Bits(z)
  {
    hide Bits;
    BitsAppend(x + y, z);
    BitsAppend(x, y);
  }

  // A frame damaged in up to three adjacent bytes is never accepted as a frame of its length.
  lemma DamagedFrameRejected(f: seq<Byte>, d: seq<Byte>, w: nat)
    requires IsFrame(f) && |d| == |f| && d != f && w + 3 <= |f|
    requires d[..w] == f[..w] && d[w + 3..] == f[w + 3..]
    ensures !IsFrame(d)
    ensures 3 <= w ==> Decide(d) == BadCrc
  {
    if CrcOk(d) {
      AdjacentDamageDetected(f, d, w);
    }
    if 3 <= w {
      assert d[0] == d[..w][0] == f[0] && d[1] == d[..w][1] == f[1] && d[2] == d[..w][2] == f[2];
      assert d[..|d|] == d;
    }
  }

  // Wherever it stands in a stream, such a frame costs its first byte and counts one checksum error,
  // and the scan goes on behind that byte.
  lemma DamagedFrameCounted(f: seq<Byte>, d: seq<Byte>, w: nat, tail: seq<Byte>)
    requires IsFrame(f) && |d| == |f| && d != f && 3 <= w && w + 3 <= |f|
    requires d[..w] == f[..w] && d[w + 3..] == f[w + 3..]
    ensures Scan(d + tail) == Then(Outcome([], 1, 1, []), Scan((d + tail)[1..]))
  {
    hide Decide, Scan;
    DamagedFrameRejected(f, d, w);
    BadCrcCosts(d);
    DecideStable(d, tail);
    BadCrcCosts(d + tail);
  }

  lemma BadCrcCosts(s: seq<Byte>)
    requires s != [] && Decide(s) == BadCrc
    ensures Scan(s) == Then(Outcome([], 1, 1, []), Scan(s[1..]))
  {
    hide Decide;
  }
}
