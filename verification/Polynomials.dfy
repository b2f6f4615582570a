// Long division of polynomials over GF(2) by the CRC-24Q generator (RTCM 10403.3, section 4,
// transport layer).
module Polynomials {
  import opened Words

  // A remainder of degree below 24.
  type Rem = p: Poly | |p| == 24 witness seq(24, i => false)

  // x^24 + x^23 + x^18 + x^17 + x^14 + x^11 + x^10 + x^7 + x^6 + x^5 + x^4 + x^3 + x + 1
  const CRC24Q_POLY: nat := 0x1864CFB
  const GENERATOR: Poly := LowBits(CRC24Q_POLY, 25)

  // The generator has degree 24 and a constant term.
  lemma GeneratorEnds()
    ensures GENERATOR[0] && GENERATOR[24]
    ensures LowBits(CRC24Q_POLY, 24) == GENERATOR[1..]
    ensures ShiftRight(CRC24Q_POLY, 24) == 1
  {
    WordEnds(CRC24Q_POLY);
  }

  lemma WordEnds(c: nat)
    requires c / 0x1000000 == 1 && c % 2 == 1
    ensures LowBits(c, 25)[0] && LowBits(c, 25)[24]
    ensures LowBits(c, 24) == LowBits(c, 25)[1..]
    ensures ShiftRight(c, 24) == 1
  {
    LowBitsSplit(c, 1, 24);
    ShiftRight24(c);
    assert LowBits(1, 1) == LowBits(0, 0) + [true];
    assert LowBits(c, 25) == LowBits(c / 2, 24) + [true];
  }

  // One step of long division: bring down the next coefficient and subtract the
  // generator if it fits.
  function BringDown(rem: Rem, bit: bool): (r: Rem)
    ensures forall i :: 0 <= i < 24 ==>
      r[i] == ((if i < 23 then rem[i + 1] else bit) != (rem[0] && GENERATOR[i + 1]))
  {
    var t := rem + [bit];
    if t[0] then Xor(t, GENERATOR)[1..] else t[1..]
  }

  // Long division continued from the partial remainder `rem`.
  function Divide(rem: Rem, p: Poly): Rem
  {
    if p == [] then rem else BringDown(Divide(rem, p[..|p| - 1]), p[|p| - 1])
  }

  // The remainder of `p` on division by the generator.
  function Remainder(p: Poly): Rem
  {
    Divide(Zeros(24), p)
  }

  // ---------------------------------------------------------------- algebra

  lemma {:induction false} DivideAppend(rem: Rem, p: Poly, q: Poly)
    ensures Divide(rem, p + q) == Divide(Divide(rem, p), q)
  {
    if q == [] {
      assert p + q == p;
    } else {
      var r := p + q;
      assert r[..|r| - 1] == p + q[..|q| - 1];
      DivideAppend(rem, p, q[..|q| - 1]);
    }
  }

  lemma BringDownSum(r: Rem, s: Rem, b: bool, c: bool)
    ensures BringDown(Xor(r, s), b != c) == Xor(BringDown(r, b), BringDown(s, c))
  {
    var lhs, rhs := BringDown(Xor(r, s), b != c), Xor(BringDown(r, b), BringDown(s, c));
    forall i | 0 <= i < 24 ensures lhs[i] == rhs[i] {
    }
  }

  // Division is linear: remainders of sums are sums of remainders.
  lemma {:induction false} DivideSum(r: Rem, s: Rem, p: Poly, q: Poly)
    requires |p| == |q|
    ensures Divide(Xor(r, s), Xor(p, q)) == Xor(Divide(r, p), Divide(s, q))
  {
    if p == [] {
      assert Xor(p, q) == [];
    } else {
      var n := |p| - 1;
      assert Xor(p, q)[..n] == Xor(p[..n], q[..n]);
      DivideSum(r, s, p[..n], q[..n]);
      BringDownSum(Divide(r, p[..n]), Divide(s, q[..n]), p[n], q[n]);
    }
  }

  lemma NothingSubtracted(x: Poly, p: Poly)
    requires p != [] && |p| + |x| == 24
    ensures BringDown([false] + x + p[..|p| - 1], p[|p| - 1]) == x + p
  {
    var r := [false] + x + p[..|p| - 1];
    assert r[0] == false;
    assert r[1..] + [p[|p| - 1]] == x + p;
  }

  // Leading zeros of the register make room for new coefficients without any subtraction.
  lemma {:induction false} DivideIntoZeros(x: Poly, p: Poly)
    requires |p| + |x| == 24
    ensures Divide(Zeros(|p|) + x, p) == x + p
    decreases |p|
  {
    if p == [] {
      assert Zeros(0) + x == x && x + p == x;
    } else {
      var n := |p| - 1;
      var y := [false] + x;
      assert Zeros(|p|) + x == Zeros(n) + y;
      DivideIntoZeros(y, p[..n]);
      NothingSubtracted(x, p);
    }
  }

  lemma BringDownInjective(r: Rem, s: Rem)
    requires BringDown(r, false) == BringDown(s, false)
    ensures r == s
  {
    GeneratorEnds();
    // The generator has a constant term, so the last coefficient of the result tells
    // whether it was subtracted.
    assert BringDown(r, false)[23] == r[0];
    assert BringDown(s, false)[23] == s[0];
    forall i | 0 <= i < 24 ensures r[i] == s[i] {
      if i > 0 {
        assert BringDown(r, false)[i - 1] == (r[i] != (r[0] && GENERATOR[i]));
        assert BringDown(s, false)[i - 1] == (s[i] != (s[0] && GENERATOR[i]));
      }
    }
  }

  // Multiplication by x is injective modulo the generator, hence so is appending anything.
  lemma {:induction false} DivideInjective(r: Rem, s: Rem, p: Poly)
    requires Divide(r, p) == Divide(s, p)
    ensures r == s
  {
    if p != [] {
      var n := |p| - 1;
      var z := Divide(r, p[..n]);
      var w := Divide(s, p[..n]);
      assert forall i :: 0 <= i < 24 ==> BringDown(z, p[n])[i] == BringDown(w, p[n])[i];
      assert BringDown(z, false) == BringDown(w, false) by {
        BringDownLast(z, p[n]);
        BringDownLast(w, p[n]);
      }
      BringDownInjective(z, w);
      DivideInjective(r, s, p[..n]);
    }
  }

  lemma BringDownLast(r: Rem, b: bool)
    ensures BringDown(r, b) == Xor(BringDown(r, false), Zeros(23) + [b])
  {
  }

  // ------------------------------------------------------------- CRC facts

  // Sending the remainder of message * x^24 as trailer makes the whole divisible, and
  // nothing else does.
  lemma TrailerMatchesIffDivisible(message: Poly, trailer: Rem)
    ensures Remainder(message + Zeros(24)) == trailer <==> Remainder(message + trailer) == Zeros(24)
  {
    var r := Remainder(message);
    DivideAppend(Zeros(24), message, Zeros(24));
    DivideAppend(Zeros(24), message, trailer);
    DivideSum(r, Zeros(24), Zeros(24), trailer);
    assert Xor(r, Zeros(24)) == r && Xor(Zeros(24), trailer) == trailer;
    assert Zeros(24) + [] == Zeros(24) && [] + trailer == trailer;
    DivideIntoZeros([], trailer);
    assert Remainder(message + trailer) == Xor(Remainder(message + Zeros(24)), trailer);
    SumZeroIffEqual(Remainder(message + Zeros(24)), trailer);
  }

  lemma SumZeroIffEqual(a: Poly, b: Poly)
    requires |a| == |b|
    ensures Xor(a, b) == Zeros(|a|) <==> a == b
  {
    if Xor(a, b) == Zeros(|a|) {
      forall i | 0 <= i < |a| ensures a[i] == b[i] {
        assert Xor(a, b)[i] == Zeros(|a|)[i];
      }
    }
  }

  // A burst: two strings that differ only inside one window of 24 coefficients have equal
  // remainders only if they are equal.
  lemma BurstDetected(head: Poly, x: Poly, y: Poly, tail: Poly)
    requires |x| == |y| == 24
    requires Remainder(head + x + tail) == Remainder(head + y + tail)
    ensures x == y
  {
    var h := Remainder(head);
    DivideAppend(Zeros(24), head + x, tail);
    DivideAppend(Zeros(24), head + y, tail);
    DivideInjective(Remainder(head + x), Remainder(head + y), tail);
    DivideAppend(Zeros(24), head, x);
    DivideAppend(Zeros(24), head, y);
    AppendedWindow(h, x);
    AppendedWindow(h, y);
    var z := Divide(h, Zeros(24));
    assert Xor(z, x) == Xor(z, y);
    forall i | 0 <= i < 24 ensures x[i] == y[i] {
      assert Xor(z, x)[i] == Xor(z, y)[i];
    }
  }

  // Bringing down 24 coefficients adds them to what 24 zeros would have left.
  lemma AppendedWindow(r: Rem, x: Poly)
    requires |x| == 24
    ensures Divide(r, x) == Xor(Divide(r, Zeros(24)), x)
  {
    DivideSum(r, Zeros(24), Zeros(24), x);
    assert Xor(r, Zeros(24)) == r && Xor(Zeros(24), x) == x;
    assert Zeros(24) + [] == Zeros(24) && [] + x == x;
    DivideIntoZeros([], x);
  }
}
