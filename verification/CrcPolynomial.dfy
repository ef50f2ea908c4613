/** What the shift register of module Crc32 computes: the remainder of the message polynomial.

    A polynomial over GF(2) is the finite set of its exponents.
  */
module CrcPolynomial {
  import opened Crc32

  type Poly = set<nat>

  function Add(p: Poly, q: Poly): Poly { (p - q) + (q - p) }

  function Shift(p: Poly, k: nat): Poly { set e | e in p :: e + k }

  function TimesX(p: Poly): Poly { Shift(p, 1) }

  lemma InShift(p: Poly, k: nat)
    ensures forall n: nat :: n in Shift(p, k) <==> n >= k && n - k in p
  {
    forall n: nat | n >= k && n - k in p
      ensures n in Shift(p, k)
    {
      var e := n - k;
      assert e in p && e + k == n;
    }
  }

  /** The message as a polynomial: the first bit sent has the highest exponent. */
  function MessagePoly(bits: seq<bool>): Poly {
    set i | 0 <= i < |bits| && bits[i] :: (|bits| - 1 - i) as nat
  }

  /** A reflected register: its lowest bit is the coefficient of x^31. */
  function RegisterPoly(r: bv32): Poly { MessagePoly(LowBits(r, 32)) }

  function Generator(poly: bv32): Poly { RegisterPoly(poly) + {32} }

  /** The product of a quotient, highest coefficient first, with g. */
  function Product(q: seq<bool>, g: Poly): Poly
    decreases |q|
  {
    if q == [] then {}
    else
      var p := TimesX(Product(q[..|q| - 1], g));
      if q[|q| - 1] then Add(p, g) else p
  }

  /** The polynomial that is divided: the message times x^32, with the initial register
      added to the 32 coefficients that come first. */
  function Dividend(crc0: bv32, bits: seq<bool>): Poly {
    Add(Shift(RegisterPoly(crc0), |bits|), Shift(MessagePoly(bits), 32))
  }

  ghost predicate IsRemainder(rem: Poly, dividend: Poly, g: Poly) {
    && (forall e :: e in rem ==> e < 32)
    && exists q :: dividend == Add(Product(q, g), rem)
  }

  /** The register left by Divide is the remainder of the dividend by the generator. */
  lemma DivideIsRemainder(poly: bv32, crc0: bv32, bits: seq<bool>)
    ensures IsRemainder(RegisterPoly(Divide(poly, crc0, bits)), Dividend(crc0, bits), Generator(poly))
  {
    var q := Quotient(poly, crc0, bits);
    RegisterPolyBelow(Divide(poly, crc0, bits));
  }

  // ----- The theorem in bits of bytes and words -----

  /** Bit k of byte i is the coefficient of x^(8n - 1 - (8i + k)) in the polynomial of n bytes. */
  ghost predicate TermsOfBytes(p: Poly, msg: seq<bv8>) {
    && (forall e :: e in p ==> e < 8 * |msg|)
    && forall i: nat, k: bv6 :: i < |msg| && k < 8 && k as int < 8 ==>
         ((8 * |msg| - 1 - (8 * i + k as int)) in p <==> ByteBit(msg[i], k))
  }

  /** Bit k of a register is the coefficient of x^(31 - k). */
  ghost predicate TermsOfWord(p: Poly, r: bv32) {
    && (forall e :: e in p ==> e < 32)
    && forall k: bv6 :: k < 32 && k as int < 32 ==> ((31 - k as int) in p <==> BitOf(r, k))
  }

  lemma RegisterTerms(r: bv32)
    ensures TermsOfWord(RegisterPoly(r), r)
  {
    hide LowBits;
    InMessage(LowBits(r, 32));
    forall k: bv6 | k < 32 && k as int < 32
      ensures (31 - k as int) in RegisterPoly(r) <==> BitOf(r, k)
    {
      LowBitsAt(r, 32, k);
    }
  }

  lemma MessageTerms(msg: seq<bv8>)
    ensures TermsOfBytes(MessagePoly(MessageBits(msg)), msg)
  {
    hide MessageBits;
    var bits := MessageBits(msg);
    InMessage(bits);
    MessageBitsLength(msg);
    forall i: nat, k: bv6 | i < |msg| && k < 8 && k as int < 8
      ensures (8 * |msg| - 1 - (8 * i + k as int)) in MessagePoly(bits) <==> ByteBit(msg[i], k)
    {
      MessageBitAt(msg, i, k);
    }
  }

  /** The bit with a given number. */
  lemma BitNumber(n: nat) returns (k: bv6)
    requires n < 32
    ensures k < 32 && k as int == n && (n < 8 ==> k < 8)
  {
    k := n as bv6;
  }

  lemma WordDetermined(p: Poly, q: Poly, r: bv32)
    requires TermsOfWord(p, r) && TermsOfWord(q, r)
    ensures p == q
  {
    forall e: nat ensures e in p <==> e in q {
      if e < 32 {
        var k := BitNumber(31 - e);
        assert 31 - k as int == e;
        assert (31 - k as int) in p <==> BitOf(r, k);
        assert (31 - k as int) in q <==> BitOf(r, k);
      }
    }
  }

  lemma BytesDetermined(p: Poly, q: Poly, msg: seq<bv8>)
    requires TermsOfBytes(p, msg) && TermsOfBytes(q, msg)
    ensures p == q
  {
    forall e: nat ensures e in p <==> e in q {
      if e < 8 * |msg| {
        var m := 8 * |msg| - 1 - e;
        var k := BitNumber(m % 8);
        var i := m / 8;
        assert 8 * i + k as int == m && 8 * |msg| - 1 - (8 * i + k as int) == e;
        assert (8 * |msg| - 1 - (8 * i + k as int)) in p <==> ByteBit(msg[i], k);
        assert (8 * |msg| - 1 - (8 * i + k as int)) in q <==> ByteBit(msg[i], k);
      }
    }
  }

  /** The value that the checksum loop ensures, for n bytes and initial register crc0: the polynomial of
      the bytes times x^32, with the initial register added to the 32 coefficients that come first, leaves
      exactly this value when it is divided by x^32 and the terms of the polynomial word. */
  lemma ChecksumIsRemainder(poly: bv32, crc0: bv32, msg: seq<bv8>, c0: Poly, m: Poly, g: Poly, rem: Poly)
    requires TermsOfWord(c0, crc0) && TermsOfBytes(m, msg) && TermsOfWord(g, poly)
    requires TermsOfWord(rem, Divide(poly, crc0, MessageBits(msg)))
    ensures IsRemainder(rem, Add(Shift(c0, 8 * |msg|), Shift(m, 32)), g + {32})
  {
    hide Divide, MessageBits, RegisterPoly, MessagePoly, Shift, TermsOfWord, TermsOfBytes, IsRemainder;
    var bits := MessageBits(msg);
    RegisterTerms(crc0);
    RegisterTerms(poly);
    RegisterTerms(Divide(poly, crc0, bits));
    MessageTerms(msg);
    WordDetermined(c0, RegisterPoly(crc0), crc0);
    WordDetermined(g, RegisterPoly(poly), poly);
    WordDetermined(rem, RegisterPoly(Divide(poly, crc0, bits)), Divide(poly, crc0, bits));
    BytesDetermined(m, MessagePoly(bits), msg);
    MessageBitsLength(msg);
    DivideIsRemainder(poly, crc0, bits);
  }

  lemma {:induction false} Quotient(poly: bv32, crc0: bv32, bits: seq<bool>) returns (q: seq<bool>)
    ensures |q| == |bits|
    ensures Dividend(crc0, bits) == Add(Product(q, Generator(poly)), RegisterPoly(Divide(poly, crc0, bits)))
    decreases |bits|
  {
    if bits == [] {
      q := [];
      InShift(RegisterPoly(crc0), 0);
      InShift(MessagePoly(bits), 32);
      assert MessagePoly(bits) == {};
      assert Dividend(crc0, bits) == RegisterPoly(crc0);
    } else {
      var n := |bits| - 1;
      var q0 := Quotient(poly, crc0, bits[..n]);
      assert bits == bits[..n] + [bits[n]];
      q := QuotientStep(poly, crc0, bits[..n], bits[n], q0);
    }
  }

  lemma QuotientStep(poly: bv32, crc0: bv32, init: seq<bool>, b: bool, q0: seq<bool>) returns (q: seq<bool>)
    requires |q0| == |init|
    requires Dividend(crc0, init) == Add(Product(q0, Generator(poly)), RegisterPoly(Divide(poly, crc0, init)))
    ensures |q| == |init| + 1
    ensures Dividend(crc0, init + [b]) ==
            Add(Product(q, Generator(poly)), RegisterPoly(Divide(poly, crc0, init + [b])))
  {
    var g, r := Generator(poly), Divide(poly, crc0, init);
    var s, x := Xor(r, BitWord(b)), TimesX(Product(q0, g));
    q := q0 + [s & 1 == 1];
    assert q[..|q0|] == q0;
    DivideConcat(poly, crc0, init, [b]);
    DividendGrows(crc0, init, b);
    TimesXAdd(Product(q0, g), RegisterPoly(r));
    AddAssociates(x, TimesX(RegisterPoly(r)), Highest(b, 32));
    BitEnters(r, b);
    assert Dividend(crc0, init + [b]) == Add(x, TimesX(RegisterPoly(s)));
    StepPoly(poly, s);
    StepIntoQuotient(x, g, RegisterPoly(BitStep(poly, s)), s & 1 == 1);
  }

  lemma StepIntoQuotient(p: Poly, g: Poly, rem: Poly, carry: bool)
    ensures Add(p, if carry then Add(g, rem) else rem) == Add(if carry then Add(p, g) else p, rem)
  {}

  lemma BitEnters(r: bv32, b: bool)
    ensures Add(TimesX(RegisterPoly(r)), Highest(b, 32)) == TimesX(RegisterPoly(Xor(r, BitWord(b))))
  {
    RegisterAdd(r, BitWord(b));
    BitWordPoly(b);
    TimesXAdd(RegisterPoly(r), RegisterPoly(BitWord(b)));
    InShift(RegisterPoly(BitWord(b)), 1);
    assert TimesX(RegisterPoly(BitWord(b))) == Highest(b, 32);
  }

  /** A polynomial has one remainder. */
  lemma RemainderUnique(dividend: Poly, poly: bv32, r1: Poly, r2: Poly)
    requires IsRemainder(r1, dividend, Generator(poly)) && IsRemainder(r2, dividend, Generator(poly))
    ensures r1 == r2
  {
    var g := Generator(poly);
    var q1 :| dividend == Add(Product(q1, g), r1);
    var q2 :| dividend == Add(Product(q2, g), r2);
    RegisterPolyBelow(poly);
    RemaindersCancel(dividend, Product(q1, g), r1, Product(q2, g), r2);
    SumOfProductsLarge(q1, q2, g);
    assert forall e :: e in Add(r1, r2) ==> e < 32;
    EmptyDifference(r1, r2);
  }

  lemma SumOfProductsLarge(q1: seq<bool>, q2: seq<bool>, g: Poly)
    requires 32 in g && forall e :: e in g ==> e <= 32
    ensures var p := Add(Product(q1, g), Product(q2, g)); p != {} ==> exists e :: e in p && e >= 32
  {
    var n := if |q1| > |q2| then |q1| else |q2|;
    var z1, z2 := Padded(q1, n), Padded(q2, n);
    LeadingZeros(q1, g, n - |q1|);
    LeadingZeros(q2, g, n - |q2|);
    var d := seq(n, i requires 0 <= i < n => z1[i] != z2[i]);
    ProductAdds(z1, z2, d, g);
    ProductLarge(d, g);
  }

  function Padded(q: seq<bool>, n: nat): (z: seq<bool>)
    requires |q| <= n
    ensures |z| == n
  {
    seq(n - |q|, i => false) + q
  }

  lemma RemaindersCancel(dividend: Poly, p1: Poly, r1: Poly, p2: Poly, r2: Poly)
    requires dividend == Add(p1, r1) == Add(p2, r2)
    ensures Add(p1, p2) == Add(r1, r2)
  {
    forall e: nat
      ensures e in Add(p1, p2) <==> e in Add(r1, r2)
    {
      assert (e in p1) != (e in r1) <==> e in dividend;
      assert (e in p2) != (e in r2) <==> e in dividend;
    }
  }

  lemma EmptyDifference(p: Poly, q: Poly)
    requires Add(p, q) == {}
    ensures p == q
  {
    forall e: nat
      ensures e in p <==> e in q
    {
      assert e !in Add(p, q);
    }
  }

  lemma AddAssociates(a: Poly, b: Poly, c: Poly)
    ensures Add(Add(a, b), c) == Add(a, Add(b, c))
  {}

  lemma TimesXAdd(a: Poly, b: Poly)
    ensures TimesX(Add(a, b)) == Add(TimesX(a), TimesX(b))
  {
    InShift(a, 1);
    InShift(b, 1);
    InShift(Add(a, b), 1);
  }

  lemma InMessage(bits: seq<bool>)
    ensures forall e: nat :: e in MessagePoly(bits) <==> e < |bits| && bits[|bits| - 1 - e]
  {
    forall e: nat | e < |bits| && bits[|bits| - 1 - e]
      ensures e in MessagePoly(bits)
    {
      var i := |bits| - 1 - e;
      assert |bits| - 1 - i == e;
    }
  }

  lemma RegisterPolyBelow(r: bv32)
    ensures forall e :: e in RegisterPoly(r) ==> e < 32
  {}

  lemma {:induction false} LowBitsAdd(a: bv32, b: bv32, n: nat)
    ensures forall i :: 0 <= i < n ==> LowBits(Xor(a, b), n)[i] == (LowBits(a, n)[i] != LowBits(b, n)[i])
    decreases n
  {
    hide Xor;
    if n == 0 {
    } else {
      XorShifts(a, b);
      LowBitAdds(a, b);
      LowBitsAdd(a >> 1, b >> 1, n - 1);
      LowBitsPop(a, a >> 1, a & 1 == 1, n);
      LowBitsPop(b, b >> 1, b & 1 == 1, n);
      LowBitsPop(Xor(a, b), Xor(a >> 1, b >> 1), (a & 1 == 1) != (b & 1 == 1), n);
    }
  }

  lemma LowBitAdds(a: bv32, b: bv32)
    ensures (Xor(a, b) & 1 == 1) == ((a & 1 == 1) != (b & 1 == 1))
  {
    XorLowBit(a, b);
    LowBit(a);
    LowBit(b);
  }

  lemma RegisterAdd(a: bv32, b: bv32)
    ensures RegisterPoly(Xor(a, b)) == Add(RegisterPoly(a), RegisterPoly(b))
  {
    LowBitsAdd(a, b, 32);
    InMessage(LowBits(a, 32));
    InMessage(LowBits(b, 32));
    InMessage(LowBits(Xor(a, b), 32));
  }

  lemma BitWordPoly(b: bool)
    ensures RegisterPoly(BitWord(b)) == if b then {31} else {}
  {
    var bits := LowBits(BitWord(b), 32);
    LowBitsOfBit(b);
    LowBitsZero(31);
    assert bits == [b] + LowBits(0, 31);
    InMessage(bits);
  }

  lemma LowBitsOfBit(b: bool)
    ensures BitWord(b) >> 1 == 0 && (BitWord(b) & 1 == 1) == b
  {}

  lemma {:induction false} LowBitsZero(n: nat)
    ensures LowBits(0, n) == seq(n, i => false)
  {
    if n == 0 {
    } else {
      LowBitsZero(n - 1);
    }
  }

  function Highest(x: bool, n: nat): Poly { if x then {n} else {} }

  /** Multiplying a register by x: it shifts down, and its lowest bit becomes x^32. */
  lemma RegisterTimesX(r: bv32)
    ensures TimesX(RegisterPoly(r)) == Highest(r & 1 == 1, 32) + RegisterPoly(r >> 1)
  {
    var half := r >> 1;
    HalfBelowTop(r);
    OnesAre();
    ShiftedOut(half, 31);
    LowBitsGrow(half, 31);
    TimesXOfBits(r & 1 == 1, LowBits(half, 31));
  }

  lemma TimesXOfBits(x: bool, bits: seq<bool>)
    ensures TimesX(MessagePoly([x] + bits)) == Highest(x, |bits| + 1) + MessagePoly(bits + [false])
  {
    InShift(MessagePoly([x] + bits), 1);
    InMessage([x] + bits);
    InMessage(bits + [false]);
  }

  lemma HalfBelowTop(r: bv32)
    ensures Within(r >> 1, 0x7FFFFFFF)
  {}

  lemma {:induction false} LowBitsGrow(w: bv32, n: nat)
    ensures LowBits(w, n + 1) == LowBits(w, n) + [Shifted(w, n) & 1 == 1]
    decreases n
  {
    if n == 0 {
    } else {
      LowBitsGrow(w >> 1, n - 1);
    }
  }

  /** A step of the register is multiplication by x followed by subtraction of the generator
      when x^32 appears. */
  lemma StepPoly(poly: bv32, s: bv32)
    ensures TimesX(RegisterPoly(s)) ==
            if s & 1 == 1 then Add(Generator(poly), RegisterPoly(BitStep(poly, s))) else RegisterPoly(BitStep(poly, s))
  {
    RegisterTimesX(s);
    if s & 1 == 1 {
      RegisterAdd(s >> 1, poly);
      RegisterPolyBelow(s >> 1);
      RegisterPolyBelow(poly);
      CarryReduces(RegisterPoly(s >> 1), RegisterPoly(poly), 32);
    }
  }

  lemma CarryReduces(half: Poly, low: Poly, n: nat)
    requires n !in half && n !in low
    ensures {n} + half == Add(low + {n}, Add(half, low))
  {}

  lemma DividendGrows(crc0: bv32, bits: seq<bool>, b: bool)
    ensures Dividend(crc0, bits + [b]) == Add(TimesX(Dividend(crc0, bits)), Highest(b, 32))
  {
    var init, m, m' := RegisterPoly(crc0), MessagePoly(bits), MessagePoly(bits + [b]);
    MessageGrows(bits, b);
    InShift(init, |bits|);
    InShift(init, |bits| + 1);
    InShift(m, 32);
    InShift(m', 32);
    InShift(m, 1);
    var carry := Highest(b, 32);
    forall e: nat
      ensures e in Shift(m', 32) <==> (e in TimesX(Shift(m, 32))) != (e in carry)
    {
      InShift(Shift(m, 32), 1);
      assert e >= 33 ==> (e - 32 in m' <==> e - 33 in m);
    }
    forall e: nat
      ensures e in Shift(init, |bits| + 1) <==> e in TimesX(Shift(init, |bits|))
    {
      InShift(Shift(init, |bits|), 1);
    }
    assert Shift(m', 32) == Add(TimesX(Shift(m, 32)), carry);
    assert Shift(init, |bits| + 1) == TimesX(Shift(init, |bits|));
    TimesXAdd(Shift(init, |bits|), Shift(m, 32));
    AddAssociates(TimesX(Shift(init, |bits|)), TimesX(Shift(m, 32)), carry);
  }

  lemma MessageGrows(bits: seq<bool>, b: bool)
    ensures forall e: nat :: e in MessagePoly(bits + [b]) <==> (e >= 1 && e - 1 in MessagePoly(bits)) || (e == 0 && b)
  {
    InMessage(bits + [b]);
    InMessage(bits);
  }

  lemma {:induction false} LeadingZeros(q: seq<bool>, g: Poly, k: nat)
    ensures Product(seq(k, i => false) + q, g) == Product(q, g)
    decreases |q|
  {
    var z := seq(k, i => false);
    if q == [] {
      assert z + q == z;
      ProductOfZeros(k, g);
    } else {
      assert (z + q)[..|z + q| - 1] == z + q[..|q| - 1];
      LeadingZeros(q[..|q| - 1], g, k);
    }
  }

  lemma {:induction false} ProductOfZeros(k: nat, g: Poly)
    ensures Product(seq(k, i => false), g) == {}
  {
    if k == 0 {
    } else {
      assert seq(k, i => false)[..k - 1] == seq(k - 1, i => false);
      ProductOfZeros(k - 1, g);
    }
  }

  lemma {:induction false} ProductAdds(a: seq<bool>, b: seq<bool>, d: seq<bool>, g: Poly)
    requires |a| == |b| == |d| && forall i :: 0 <= i < |d| ==> d[i] == (a[i] != b[i])
    ensures Product(d, g) == Add(Product(a, g), Product(b, g))
    decreases |d|
  {
    if d == [] {
    } else {
      var n := |d| - 1;
      ProductAdds(a[..n], b[..n], d[..n], g);
      TimesXAdd(Product(a[..n], g), Product(b[..n], g));
    }
  }

  /** Every nonzero multiple of a polynomial of degree 32 has degree at least 32. */
  lemma {:induction false} ProductLarge(q: seq<bool>, g: Poly)
    requires 32 in g && forall e :: e in g ==> e <= 32
    ensures Product(q, g) != {} ==> exists e :: e in Product(q, g) && e >= 32
    decreases |q|
  {
    if q == [] {
    } else {
      var p := Product(q[..|q| - 1], g);
      ProductLarge(q[..|q| - 1], g);
      if p != {} {
        var e :| e in p && e >= 32;
        InShift(p, 1);
        assert e + 1 in TimesX(p) && e + 1 !in g;
        assert e + 1 in Product(q, g);
      } else {
        assert TimesX(p) == {};
        if q[|q| - 1] {
          assert 32 in Product(q, g);
        }
      }
    }
  }
}
