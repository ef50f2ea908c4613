/** The table-driven checksum loop of ext4fsd/drv_common/drv_crc32.c, proved to be division
    of polynomials over GF(2).

    The source types the table as size_t although both tables hold 32-bit words; the model
    reads 32-bit words.
  */
module Crc32 {
  import opened CrcTables
  import opened CrcSeq16

  const POLY_CRC32: bv32 := 0xEDB88320
  const POLY_CRC32C: bv32 := 0x82F63B78

  function Xor(a: bv32, b: bv32): bv32 { a ^ b }

  /** One step of the reflected shift register. */
  function BitStep(poly: bv32, r: bv32): bv32 {
    if r & 1 == 1 then Xor(r >> 1, poly) else r >> 1
  }

  function ByteSteps(poly: bv32, r: bv32): bv32 {
    BitStep(poly, BitStep(poly, BitStep(poly, BitStep(poly,
      BitStep(poly, BitStep(poly, BitStep(poly, BitStep(poly, r))))))))
  }

  function BitWord(b: bool): bv32 { if b then 1 else 0 }

  /** Bit-by-bit reflected division: every message bit is added to the low end of the
      register, which then takes one step. This is the reference the loop is proved against. */
  function Divide(poly: bv32, r: bv32, bits: seq<bool>): bv32
    decreases |bits|
  {
    if bits == [] then r
    else Divide(poly, BitStep(poly, Xor(r, BitWord(bits[0]))), bits[1..])
  }

  /** The bits of a byte in the order they are sent: least significant first. */
  function ByteBits(b: bv8): seq<bool> { LowBits(b as bv32, 8) }

  function LowBits(w: bv32, n: nat): (bits: seq<bool>)
    ensures |bits| == n
  {
    if n == 0 then [] else [w & 1 == 1] + LowBits(w >> 1, n - 1)
  }

  function MessageBits(msg: seq<bv8>): seq<bool> {
    if msg == [] then [] else ByteBits(msg[0]) + MessageBits(msg[1..])
  }

  // ----- The bits of a message -----

  /** Bit k of a word, counted from the low end. */
  predicate BitOf(w: bv32, k: bv6)
    requires k < 32
  {
    (w >> k) & 1 == 1
  }

  lemma BitPop(w: bv32, k: bv6)
    requires 0 < k < 32
    ensures BitOf(w >> 1, k - 1) == BitOf(w, k)
  {}

  lemma BitZero(w: bv32)
    ensures BitOf(w, 0) <==> w & 1 == 1
  {}

  lemma CountDown(k: bv6)
    requires k != 0
    ensures (k - 1) as int == k as int - 1 && k as int > 0
  {}

  /** The bits of a word come lowest first. */
  lemma {:induction false} LowBitsAt(w: bv32, n: nat, k: bv6)
    requires k < 32 && k as int < n <= 32
    ensures LowBits(w, n)[k as int] == BitOf(w, k)
    decreases n
  {
    hide BitOf;
    if k == 0 {
      BitZero(w);
    } else {
      CountDown(k);
      BitPop(w, k);
      LowBitsAt(w >> 1, n - 1, k - 1);
    }
  }

  predicate ByteBit(b: bv8, k: bv6)
    requires k < 8
  {
    (b >> k) & 1 == 1
  }

  lemma ByteBitsAt(b: bv8, k: bv6)
    requires k < 8 && k as int < 8
    ensures ByteBits(b)[k as int] <==> (b >> k) & 1 == 1
  {
    hide LowBits;
    LowBitsAt(b as bv32, 8, k);
    ByteInWord(b, k);
  }

  lemma ByteInWord(b: bv8, k: bv6)
    requires k < 8
    ensures ((b as bv32) >> k) & 1 == 1 <==> (b >> k) & 1 == 1
  {}

  /** The bits of a message: eight for each byte, in the order of the bytes, bit k of a byte at its place
      k. */
  lemma {:induction false} MessageBitAt(msg: seq<bv8>, i: nat, k: bv6)
    requires i < |msg| && k < 8 && k as int < 8
    ensures |MessageBits(msg)| == 8 * |msg|
    ensures MessageBits(msg)[8 * i + k as int] <==> (msg[i] >> k) & 1 == 1
    decreases i
  {
    hide ByteBits;
    MessageBitsLength(msg);
    MessageBitsLength(msg[1..]);
    if i == 0 {
      ByteBitsAt(msg[0], k);
    } else {
      MessageBitAt(msg[1..], i - 1, k);
    }
  }

  // ----- The loop -----

  function TableStep(tab: seq<bv32>, crc: bv32, b: bv8): bv32
    requires |tab| == 256
  {
    Xor(tab[((crc ^ (b as bv32)) & 0xFF) as bv8 as int], crc >> 8)
  }

  predicate EntryRight(tab: seq<bv32>, poly: bv32, x: bv8) {
    |tab| == 256 && tab[x as int] == ByteSteps(poly, x as bv32)
  }

  ghost predicate TableFor(tab: seq<bv32>, poly: bv32) {
    |tab| == 256 && forall x: bv8 :: EntryRight(tab, poly, x)
  }

  /** crc32: the loop over the buffer with whichever table the caller passes. */
  method Crc(crc0: bv32, buf: array<bv8>, size: nat, tab: seq<bv32>, ghost poly: bv32) returns (crc: bv32)
    requires size <= buf.Length && TableFor(tab, poly)
    ensures crc == Divide(poly, crc0, MessageBits(buf[..size]))
  {
    crc := crc0;
    var p := 0;
    while p < size
      invariant 0 <= p <= size
      invariant Divide(poly, crc, MessageBits(buf[p..size])) == Divide(poly, crc0, MessageBits(buf[..size]))
    {
      var b := buf[p];
      assert buf[p..size][0] == b && buf[p..size][1..] == buf[p + 1..size];
      DivideConcat(poly, crc, ByteBits(b), MessageBits(buf[p + 1..size]));
      TableStepDivides(tab, poly, crc, b);
      crc := TableStep(tab, crc, b);
      p := p + 1;
    }
    assert buf[p..size] == [];
  }

  method DrvCrc32(crc0: bv32, buf: array<bv8>, size: nat) returns (crc: bv32)
    requires size <= buf.Length
    ensures crc == Divide(POLY_CRC32, crc0, MessageBits(buf[..size]))
  {
    Crc32TableRight();
    crc := Crc(crc0, buf, size, CRC32_TAB, POLY_CRC32);
  }

  method DrvCrc32c(crc0: bv32, buf: array<bv8>, size: nat) returns (crc: bv32)
    requires size <= buf.Length
    ensures crc == Divide(POLY_CRC32C, crc0, MessageBits(buf[..size]))
  {
    Crc32cTableRight();
    crc := Crc(crc0, buf, size, CRC32C_TAB, POLY_CRC32C);
  }

  // ----- The declared types -----

  /** drv_types.h declares the 32-bit unsigned name as a signed type. With those declarations
      the shift by eight copies the sign bit. */
  function ShiftAsDeclared(crc: bv32): bv32 {
    if crc & 0x80000000 != 0 then (crc >> 8) | 0xFF000000 else crc >> 8
  }

  function TableStepAsDeclared(tab: seq<bv32>, crc: bv32, b: bv8): bv32
    requires |tab| == 256
  {
    Xor(tab[((crc ^ (b as bv32)) & 0xFF) as bv8 as int], ShiftAsDeclared(crc))
  }

  /** The step as declared is a division step exactly when the register's top bit is clear. */
  lemma DeclaredStepRightIff(tab: seq<bv32>, poly: bv32, crc: bv32, b: bv8)
    requires TableFor(tab, poly)
    ensures TableStepAsDeclared(tab, crc, b) == Divide(poly, crc, ByteBits(b)) <==> crc & 0x80000000 == 0
  {
    TableStepDivides(tab, poly, crc, b);
    var t := tab[((crc ^ (b as bv32)) & 0xFF) as bv8 as int];
    XorSelfLeft(t, ShiftAsDeclared(crc), crc >> 8);
    SignCopied(crc);
  }

  /** The table parameter is declared as a pointer to size_t. Where size_t has 64 bits and the low
      word comes first, entry i is read at word 2 * i, behind the table from entry 128 on, and the
      assignment keeps the low word. */
  function TableStepWide(tab: seq<bv32>, crc: bv32, b: bv8): bv32
    requires |tab| == 256 && ((crc ^ (b as bv32)) & 0xFF) as bv8 as int < 128
  {
    Xor(tab[2 * (((crc ^ (b as bv32)) & 0xFF) as bv8 as int)], crc >> 8)
  }

  /** Such a step is a division step exactly when it looks up entry zero. */
  lemma WideStepRightIff(tab: seq<bv32>, poly: bv32, crc: bv32, b: bv8)
    requires TableFor(tab, poly) && poly & 0x80000000 != 0
    requires ((crc ^ (b as bv32)) & 0xFF) as bv8 as int < 128
    ensures TableStepWide(tab, crc, b) == Divide(poly, crc, ByteBits(b)) <==> (crc ^ (b as bv32)) & 0xFF == 0
  {
    TableStepDivides(tab, poly, crc, b);
    var w := (crc ^ (b as bv32)) & 0xFF;
    ByteIsZero(w, w as bv8);
    WideEntryIff(tab, poly, w as bv8, crc >> 8);
  }

  lemma WideEntryIff(tab: seq<bv32>, poly: bv32, x: bv8, r: bv32)
    requires TableFor(tab, poly) && poly & 0x80000000 != 0 && x as int < 128
    ensures Xor(tab[2 * (x as int)], r) == Xor(tab[x as int], r) <==> x as int == 0
  {
    hide Xor, ByteSteps;
    var i: int := x as int;
    XorSelfRight(r, tab[i], tab[2 * i]);
    Doubled(x);
    if tab[i] == tab[2 * i] {
      EntriesDiffer(tab, poly, x, x + x);
    }
  }

  lemma Doubled(x: bv8)
    requires x as int < 128
    ensures (x + x) as int == 2 * (x as int)
  {
    assert x < 128;
    assert (x + x) as int == (x as int) + (x as int);
  }

  lemma EntriesDiffer(tab: seq<bv32>, poly: bv32, x: bv8, y: bv8)
    requires TableFor(tab, poly) && poly & 0x80000000 != 0 && tab[x as int] == tab[y as int]
    ensures x == y
  {
    hide ByteSteps, Steps;
    assert EntryRight(tab, poly, x) && EntryRight(tab, poly, y);
    EightSteps(poly, x as bv32);
    EightSteps(poly, y as bv32);
    StepsInjective(poly, x as bv32, y as bv32, 8);
    WordOfByte(x, y);
  }

  lemma XorSelfRight(r: bv32, a: bv32, b: bv32)
    ensures Xor(a, r) == Xor(b, r) ==> a == b
  {}

  lemma WordOfByte(x: bv8, y: bv8)
    requires x as bv32 == y as bv32
    ensures x == y
  {}

  lemma ByteIsZero(w: bv32, x: bv8)
    requires w <= 0xFF && x == w as bv8
    ensures w == 0 <==> x as int == 0
  {
    assert w == 0 <==> x == 0;
  }

  lemma SignCopied(crc: bv32)
    ensures (crc >> 8) | 0xFF000000 != crc >> 8
  {}

  // ----- Composition over concatenation -----

  lemma {:induction false} DivideConcat(poly: bv32, r: bv32, a: seq<bool>, b: seq<bool>)
    ensures Divide(poly, r, a + b) == Divide(poly, Divide(poly, r, a), b)
    decreases |a|
  {
    if a == [] {
      assert a + b == b;
    } else {
      assert (a + b)[1..] == a[1..] + b;
      DivideConcat(poly, BitStep(poly, Xor(r, BitWord(a[0]))), a[1..], b);
    }
  }

  lemma {:induction false} MessageBitsConcat(a: seq<bv8>, b: seq<bv8>)
    ensures MessageBits(a + b) == MessageBits(a) + MessageBits(b)
  {
    if a == [] {
      assert a + b == b;
    } else {
      assert (a + b)[1..] == a[1..] + b;
      MessageBitsConcat(a[1..], b);
    }
  }

  /** A checksum continued over a second buffer is the checksum of both buffers joined. */
  lemma ChecksumComposes(poly: bv32, crc: bv32, a: seq<bv8>, b: seq<bv8>)
    ensures Divide(poly, crc, MessageBits(a + b)) == Divide(poly, Divide(poly, crc, MessageBits(a)), MessageBits(b))
  {
    MessageBitsConcat(a, b);
    DivideConcat(poly, crc, MessageBits(a), MessageBits(b));
  }

  // ----- Linearity -----

  lemma XorCancels(a: bv32, b: bv32, p: bv32)
    ensures Xor(Xor(a, p), Xor(b, p)) == Xor(a, b)
  {
    calc { Xor(Xor(a, p), Xor(b, p)); Xor(a ^ p, b ^ p); (a ^ p) ^ (b ^ p); a ^ b; Xor(a, b); }
  }

  lemma XorSwaps(a: bv32, b: bv32, p: bv32)
    ensures Xor(Xor(a, p), b) == Xor(Xor(a, b), p)
  {
    calc { Xor(Xor(a, p), b); Xor(a ^ p, b); (a ^ p) ^ b; (a ^ b) ^ p; Xor(a ^ b, p); Xor(Xor(a, b), p); }
  }

  lemma XorAssociates(a: bv32, b: bv32, p: bv32)
    ensures Xor(a, Xor(b, p)) == Xor(Xor(a, b), p)
  {
    calc { Xor(a, Xor(b, p)); Xor(a, b ^ p); a ^ (b ^ p); (a ^ b) ^ p; Xor(a ^ b, p); Xor(Xor(a, b), p); }
  }

  lemma XorShifts(a: bv32, b: bv32)
    ensures Xor(a, b) >> 1 == Xor(a >> 1, b >> 1)
  {
    calc { Xor(a, b) >> 1; (a ^ b) >> 1; (a >> 1) ^ (b >> 1); Xor(a >> 1, b >> 1); }
  }

  lemma XorLowBit(a: bv32, b: bv32)
    ensures Xor(a, b) & 1 == Xor(a & 1, b & 1)
  {
    calc { Xor(a, b) & 1; (a ^ b) & 1; (a & 1) ^ (b & 1); Xor(a & 1, b & 1); }
  }

  lemma LowBit(a: bv32)
    ensures a & 1 == 0 || a & 1 == 1
  {}

  lemma BitStepLinear(poly: bv32, a: bv32, b: bv32)
    ensures BitStep(poly, Xor(a, b)) == Xor(BitStep(poly, a), BitStep(poly, b))
  {
    XorShifts(a, b);
    XorLowBit(a, b);
    LowBit(a);
    LowBit(b);
    XorCancels(a >> 1, b >> 1, poly);
    XorSwaps(a >> 1, b >> 1, poly);
    XorAssociates(a >> 1, b >> 1, poly);
  }

  lemma ByteStepsLinear(poly: bv32, a: bv32, b: bv32)
    ensures ByteSteps(poly, Xor(a, b)) == Xor(ByteSteps(poly, a), ByteSteps(poly, b))
  {
    BitStepLinear(poly, a, b);
    var a1, b1 := BitStep(poly, a), BitStep(poly, b);
    BitStepLinear(poly, a1, b1);
    var a2, b2 := BitStep(poly, a1), BitStep(poly, b1);
    BitStepLinear(poly, a2, b2);
    var a3, b3 := BitStep(poly, a2), BitStep(poly, b2);
    BitStepLinear(poly, a3, b3);
    var a4, b4 := BitStep(poly, a3), BitStep(poly, b3);
    BitStepLinear(poly, a4, b4);
    var a5, b5 := BitStep(poly, a4), BitStep(poly, b4);
    BitStepLinear(poly, a5, b5);
    var a6, b6 := BitStep(poly, a5), BitStep(poly, b5);
    BitStepLinear(poly, a6, b6);
    BitStepLinear(poly, BitStep(poly, a6), BitStep(poly, b6));
  }

  /** A word whose low byte is clear only shifts down during eight steps. */
  lemma HighBytesShift(poly: bv32, r: bv32)
    requires r & 0xFF == 0
    ensures ByteSteps(poly, r) == r >> 8
  {
    assert r & 1 == 0;
    assert (r >> 1) & 1 == 0;
    assert (r >> 1 >> 1) & 1 == 0;
    assert (r >> 1 >> 1 >> 1) & 1 == 0;
    assert (r >> 1 >> 1 >> 1 >> 1) & 1 == 0;
    assert (r >> 1 >> 1 >> 1 >> 1 >> 1) & 1 == 0;
    assert (r >> 1 >> 1 >> 1 >> 1 >> 1 >> 1) & 1 == 0;
    assert (r >> 1 >> 1 >> 1 >> 1 >> 1 >> 1 >> 1) & 1 == 0;
  }

  /** One turn of the loop does what dividing the byte's eight bits does. */
  lemma TableStepDivides(tab: seq<bv32>, poly: bv32, crc: bv32, b: bv8)
    requires TableFor(tab, poly)
    ensures TableStep(tab, crc, b) == Divide(poly, crc, ByteBits(b))
  {
    var s := crc ^ (b as bv32);
    var low, rest := s & 0xFF, s & 0xFFFFFF00;
    calc {
      TableStep(tab, crc, b);
      { assert EntryRight(tab, poly, low as bv8); LowByte(s); }
      Xor(ByteSteps(poly, low), crc >> 8);
      { RestOfSum(crc, b); HighBytesShift(poly, rest); }
      Xor(ByteSteps(poly, low), ByteSteps(poly, rest));
      { ByteStepsLinear(poly, low, rest); }
      ByteSteps(poly, Xor(low, rest));
      { SplitWord(s); }
      ByteSteps(poly, s);
      { DivideByte(poly, crc, b); }
      Divide(poly, crc, ByteBits(b));
    }
  }

  lemma LowByte(s: bv32)
    ensures (s & 0xFF) as bv8 as bv32 == s & 0xFF
  {}

  lemma SplitWord(s: bv32)
    ensures Xor(s & 0xFF, s & 0xFFFFFF00) == s
  {
    assert (s & 0xFF) ^ (s & 0xFFFFFF00) == s;
  }

  lemma RestOfSum(crc: bv32, b: bv8)
    ensures ((crc ^ (b as bv32)) & 0xFFFFFF00) & 0xFF == 0
    ensures ((crc ^ (b as bv32)) & 0xFFFFFF00) >> 8 == crc >> 8
  {}

  /** The bits above the lowest may be added before the step or, shifted down, after it. */
  lemma AddLater(poly: bv32, r: bv32, w: bv32)
    ensures BitStep(poly, Xor(r, w)) == Xor(BitStep(poly, Xor(r, BitWord(w & 1 == 1))), w >> 1)
  {
    var rest, low := w & 0xFFFFFFFE, BitWord(w & 1 == 1);
    SplitLowBit(w);
    calc {
      BitStep(poly, Xor(r, w));
      BitStep(poly, Xor(r, Xor(low, rest)));
      { XorAssociates(r, low, rest); }
      BitStep(poly, Xor(Xor(r, low), rest));
      { BitStepLinear(poly, Xor(r, low), rest); }
      Xor(BitStep(poly, Xor(r, low)), BitStep(poly, rest));
      Xor(BitStep(poly, Xor(r, low)), w >> 1);
    }
  }

  lemma SplitLowBit(w: bv32)
    ensures w == Xor(BitWord(w & 1 == 1), w & 0xFFFFFFFE)
    ensures (w & 0xFFFFFFFE) & 1 == 0 && (w & 0xFFFFFFFE) >> 1 == w >> 1
  {
    LowBit(w);
    calc { w; (w & 1) ^ (w & 0xFFFFFFFE); Xor(w & 1, w & 0xFFFFFFFE); }
  }

  function Steps(poly: bv32, r: bv32, n: nat): bv32
    decreases n
  {
    if n == 0 then r else Steps(poly, BitStep(poly, r), n - 1)
  }

  function Shifted(w: bv32, n: nat): bv32
    decreases n
  {
    if n == 0 then w else Shifted(w >> 1, n - 1)
  }

  /** Adding the low bits of a word one at a time, or the whole word at once, differs only by
      the bits that were not reached. */
  lemma {:induction false} DivideWord(poly: bv32, r: bv32, w: bv32, n: nat)
    ensures Steps(poly, Xor(r, w), n) == Xor(Divide(poly, r, LowBits(w, n)), Shifted(w, n))
    decreases n
  {
    if n == 0 {
    } else {
      var next := BitStep(poly, Xor(r, BitWord(w & 1 == 1)));
      AddLater(poly, r, w);
      assert LowBits(w, n)[1..] == LowBits(w >> 1, n - 1);
      DivideWord(poly, next, w >> 1, n - 1);
    }
  }

  lemma DivideByte(poly: bv32, r: bv32, b: bv8)
    ensures Divide(poly, r, ByteBits(b)) == ByteSteps(poly, Xor(r, b as bv32))
  {
    DivideWord(poly, r, b as bv32, 8);
    EightShiftsClear(b as bv32);
    EightSteps(poly, Xor(r, b as bv32));
    XorZero(Divide(poly, r, ByteBits(b)));
  }

  lemma EightSteps(poly: bv32, r: bv32)
    ensures Steps(poly, r, 8) == ByteSteps(poly, r)
  {
    var r2 := BitStep(poly, BitStep(poly, r));
    var r4 := BitStep(poly, BitStep(poly, r2));
    var r6 := BitStep(poly, BitStep(poly, r4));
    assert Steps(poly, r, 8) == Steps(poly, BitStep(poly, r), 7) == Steps(poly, r2, 6);
    assert Steps(poly, r2, 6) == Steps(poly, BitStep(poly, r2), 5) == Steps(poly, r4, 4);
    assert Steps(poly, r4, 4) == Steps(poly, BitStep(poly, r4), 3) == Steps(poly, r6, 2);
    assert Steps(poly, r6, 2) == Steps(poly, BitStep(poly, r6), 1);
  }

  lemma EightShiftsClear(w: bv32)
    requires w <= 0xFF
    ensures Shifted(w, 8) == 0
  {
    OnesAre();
    ByteWithin(w);
    ShiftedOut(w, 8);
  }

  lemma ByteWithin(w: bv32)
    requires w <= 0xFF
    ensures Within(w, 0xFF)
  {}

  function Push(w: bv32, b: bool): bv32 { (w << 1) | BitWord(b) }

  predicate Within(w: bv32, m: bv32) { w & !m == 0 }

  /** A word of n ones at the low end. */
  function Ones(n: nat): bv32 {
    if n == 0 then 0 else Push(Ones(n - 1), true)
  }

  lemma OnesAre()
    ensures Ones(8) == 0xFF && Ones(31) == 0x7FFFFFFF && Ones(32) == 0xFFFFFFFF
  {
    assert Ones(2) == 0x3;
    assert Ones(4) == 0xF;
    assert Ones(6) == 0x3F;
    assert Ones(8) == 0xFF;
    assert Ones(10) == 0x3FF;
    assert Ones(12) == 0xFFF;
    assert Ones(14) == 0x3FFF;
    assert Ones(16) == 0xFFFF;
    assert Ones(18) == 0x3FFFF;
    assert Ones(20) == 0xFFFFF;
    assert Ones(22) == 0x3FFFFF;
    assert Ones(24) == 0xFFFFFF;
    assert Ones(26) == 0x3FFFFFF;
    assert Ones(28) == 0xFFFFFFF;
    assert Ones(30) == 0x3FFFFFFF;
    assert Ones(31) == 0x7FFFFFFF;
  }

  lemma {:induction false} ShiftedOut(w: bv32, n: nat)
    requires Within(w, Ones(n))
    ensures Shifted(w, n) == 0
    decreases n
  {
    if n == 0 {
      WithinZero(w);
    } else {
      PopWithin(w, Ones(n - 1));
      ShiftedOut(w >> 1, n - 1);
    }
  }

  lemma WithinZero(w: bv32)
    requires Within(w, 0)
    ensures w == 0
  {}

  lemma PopWithin(w: bv32, m: bv32)
    requires Within(w, Push(m, true))
    ensures Within(w >> 1, m)
  {}

  lemma PushWithin(w: bv32, m: bv32, b: bool)
    requires Within(w, m)
    ensures Within(Push(w, b), Push(m, true))
  {
    if b {
      ShiftWithin(w, m, 1);
    } else {
      ShiftWithin(w, m, 0);
    }
  }

  lemma ShiftWithin(w: bv32, m: bv32, bit: bv32)
    requires w & !m == 0 && bit & 0xFFFFFFFE == 0
    ensures ((w << 1) | bit) & !((m << 1) | 1) == 0
  {}

  lemma PushPop(w: bv32, m: bv32, b: bool)
    requires Within(w, m) && m & 0x80000000 == 0
    ensures Push(w, b) >> 1 == w && (Push(w, b) & 1 == 1) == b
  {}

  lemma XorZero(r: bv32)
    ensures Xor(r, 0) == r == Xor(0, r)
  {}

  // ----- Known answers -----

  const DIGITS: seq<bv8> := [0x31, 0x32, 0x33, 0x34, 0x35, 0x36, 0x37, 0x38, 0x39]

  /** A step of the reference over byte i of a message. */
  lemma OneByte(poly: bv32, r: bv32, msg: seq<bv8>, i: nat, next: bv32)
    requires i < |msg| && ByteSteps(poly, Xor(r, msg[i] as bv32)) == next
    ensures Divide(poly, r, MessageBits(msg[i..])) == Divide(poly, next, MessageBits(msg[i + 1..]))
  {
    hide ByteBits, ByteSteps, Xor;
    assert msg[i..][0] == msg[i] && msg[i..][1..] == msg[i + 1..];
    DivideConcat(poly, r, ByteBits(msg[i]), MessageBits(msg[i + 1..]));
    DivideByte(poly, r, msg[i]);
  }

  lemma NoBytes(poly: bv32, r: bv32, msg: seq<bv8>)
    ensures msg[0..] == msg
    ensures Divide(poly, r, MessageBits(msg[|msg|..])) == r
  {
    assert msg[|msg|..] == [];
  }

  /** The check value of CRC-32: the digits 1 to 9 after all ones, without the final inversion. */
  lemma Crc32CheckValue()
    ensures Divide(POLY_CRC32, 0xFFFFFFFF, MessageBits(DIGITS)) == 0x340BC6D9
  {
    hide Divide, MessageBits;
    OneByte(POLY_CRC32, 0xFFFFFFFF, DIGITS, 0, 0x7C231048);
    OneByte(POLY_CRC32, 0x7C231048, DIGITS, 1, 0xB0ACBB32);
    OneByte(POLY_CRC32, 0xB0ACBB32, DIGITS, 2, 0x77B79C2D);
    OneByte(POLY_CRC32, 0x77B79C2D, DIGITS, 3, 0x641C1F5C);
    OneByte(POLY_CRC32, 0x641C1F5C, DIGITS, 4, 0x340AC5E3);
    OneByte(POLY_CRC32, 0x340AC5E3, DIGITS, 5, 0xF68D2C9E);
    OneByte(POLY_CRC32, 0xF68D2C9E, DIGITS, 6, 0xAFFC9660);
    OneByte(POLY_CRC32, 0xAFFC9660, DIGITS, 7, 0x651F2550);
    OneByte(POLY_CRC32, 0x651F2550, DIGITS, 8, 0x340BC6D9);
    NoBytes(POLY_CRC32, 0x340BC6D9, DIGITS);
  }

  /** The check value of CRC-32C: the digits 1 to 9 after all ones, without the final inversion. */
  lemma Crc32cCheckValue()
    ensures Divide(POLY_CRC32C, 0xFFFFFFFF, MessageBits(DIGITS)) == 0x1CF96D7C
  {
    hide Divide, MessageBits;
    OneByte(POLY_CRC32C, 0xFFFFFFFF, DIGITS, 0, 0x6F0A661C);
    OneByte(POLY_CRC32C, 0x6F0A661C, DIGITS, 1, 0x8CAA3B9F);
    OneByte(POLY_CRC32C, 0x8CAA3B9F, DIGITS, 2, 0xEF84D04D);
    OneByte(POLY_CRC32C, 0xEF84D04D, DIGITS, 3, 0x09C50B11);
    OneByte(POLY_CRC32C, 0x09C50B11, DIGITS, 4, 0xE72EDCCA);
    OneByte(POLY_CRC32C, 0xE72EDCCA, DIGITS, 5, 0xBECA8E79);
    OneByte(POLY_CRC32C, 0xBECA8E79, DIGITS, 6, 0xEDBD6815);
    OneByte(POLY_CRC32C, 0xEDBD6815, DIGITS, 7, 0x9F787F65);
    OneByte(POLY_CRC32C, 0x9F787F65, DIGITS, 8, 0x1CF96D7C);
    NoBytes(POLY_CRC32C, 0x1CF96D7C, DIGITS);
  }

  // ----- Errors confined to 32 consecutive bits -----

  /** The word whose low bits are the given bits. */
  function Pack(bits: seq<bool>): bv32
    decreases |bits|
  {
    if bits == [] then 0 else Push(Pack(bits[1..]), bits[0])
  }

  lemma {:induction false} PackWithin(bits: seq<bool>)
    ensures Within(Pack(bits), Ones(|bits|))
    decreases |bits|
  {
    if bits == [] {
    } else {
      PackWithin(bits[1..]);
      PushWithin(Pack(bits[1..]), Ones(|bits| - 1), bits[0]);
    }
  }

  lemma {:induction false} OnesBelowTop(n: nat)
    requires n <= 31
    ensures Ones(n) & 0x80000000 == 0
    decreases 31 - n
  {
    if n == 31 {
      OnesAre();
    } else {
      OnesBelowTop(n + 1);
      OnesGrow(n);
      SubMask(Ones(n), Ones(n + 1));
    }
  }

  lemma SubMask(a: bv32, b: bv32)
    requires Within(a, b) && b & 0x80000000 == 0
    ensures a & 0x80000000 == 0
  {}

  lemma {:induction false} OnesGrow(n: nat)
    ensures Within(Ones(n), Ones(n + 1))
  {
    if n == 0 {
    } else {
      OnesGrow(n - 1);
      PushWithin(Ones(n - 1), Ones(n), true);
    }
  }

  lemma {:induction false} LowBitsOfPack(bits: seq<bool>)
    requires |bits| <= 32
    ensures LowBits(Pack(bits), |bits|) == bits
    decreases |bits|
  {
    hide Push, Within, Ones;
    if bits == [] {
    } else {
      PackPushes(bits);
      PackWithin(bits[1..]);
      LowBitsPush(Pack(bits[1..]), bits[0], |bits|);
      LowBitsOfPack(bits[1..]);
      assert bits == [bits[0]] + bits[1..];
    }
  }

  lemma LowBitsPush(w: bv32, b: bool, n: nat)
    requires 0 < n <= 32 && Within(w, Ones(n - 1))
    ensures LowBits(Push(w, b), n) == [b] + LowBits(w, n - 1)
  {
    hide *;
    OnesPushPop(w, n - 1, b);
    LowBitsPop(Push(w, b), w, b, n);
  }

  lemma PackPushes(bits: seq<bool>)
    requires 0 < |bits|
    ensures Pack(bits) == Push(Pack(bits[1..]), bits[0])
  {
    hide Push;
  }

  lemma OnesPushPop(w: bv32, n: nat, b: bool)
    requires n <= 31 && Within(w, Ones(n))
    ensures Push(w, b) >> 1 == w && (Push(w, b) & 1 == 1) == b
  {
    hide *;
    OnesBelowTop(n);
    PushPop(w, Ones(n), b);
  }

  lemma LowBitsPop(w: bv32, rest: bv32, b: bool, n: nat)
    requires w >> 1 == rest && (w & 1 == 1) == b && n > 0
    ensures LowBits(w, n) == [b] + LowBits(rest, n - 1)
  {}

  lemma BitStepInjective(poly: bv32, a: bv32, b: bv32)
    requires poly & 0x80000000 != 0 && BitStep(poly, a) == BitStep(poly, b)
    ensures a == b
  {
    StepTop(poly, a >> 1);
    StepTop(poly, b >> 1);
    LowBit(a);
    LowBit(b);
    if a & 1 == 1 {
      XorCancels(a >> 1, b >> 1, poly);
      XorSelf(a >> 1, b >> 1, poly);
    }
    SameHalves(a, b);
  }

  lemma StepTop(poly: bv32, h: bv32)
    requires poly & 0x80000000 != 0
    ensures (h & 0x80000000 == 0) ==> Xor(h, poly) & 0x80000000 != 0
  {}

  lemma XorSelf(a: bv32, b: bv32, p: bv32)
    ensures Xor(a, p) == Xor(b, p) ==> a == b
  {}

  lemma SameHalves(a: bv32, b: bv32)
    ensures a >> 1 == b >> 1 && a & 1 == b & 1 ==> a == b
    ensures (a >> 1) & 0x80000000 == 0
  {}

  lemma {:induction false} StepsInjective(poly: bv32, a: bv32, b: bv32, n: nat)
    requires poly & 0x80000000 != 0 && Steps(poly, a, n) == Steps(poly, b, n)
    ensures a == b
    decreases n
  {
    if n == 0 {
    } else {
      StepsInjective(poly, BitStep(poly, a), BitStep(poly, b), n - 1);
      BitStepInjective(poly, a, b);
    }
  }

  lemma {:induction false} DivideInjective(poly: bv32, a: bv32, b: bv32, bits: seq<bool>)
    requires poly & 0x80000000 != 0 && Divide(poly, a, bits) == Divide(poly, b, bits)
    ensures a == b
    decreases |bits|
  {
    if bits == [] {
    } else {
      var w := BitWord(bits[0]);
      DivideInjective(poly, BitStep(poly, Xor(a, w)), BitStep(poly, Xor(b, w)), bits[1..]);
      BitStepInjective(poly, Xor(a, w), Xor(b, w));
      XorSelf(a, b, w);
    }
  }

  lemma WordsDiffer(poly: bv32, r: bv32, m1: seq<bool>, m2: seq<bool>)
    requires poly & 0x80000000 != 0
    requires |m1| == |m2| == 32 && m1 != m2
    ensures Divide(poly, r, m1) != Divide(poly, r, m2)
  {
    var w1, w2 := Pack(m1), Pack(m2);
    LowBitsOfPack(m1);
    LowBitsOfPack(m2);
    OnesAre();
    AllWithin(w1);
    AllWithin(w2);
    ShiftedOut(w1, 32);
    ShiftedOut(w2, 32);
    DivideWord(poly, r, w1, 32);
    DivideWord(poly, r, w2, 32);
    XorZero(Divide(poly, r, m1));
    XorZero(Divide(poly, r, m2));
    if Divide(poly, r, m1) == Divide(poly, r, m2) {
      StepsInjective(poly, Xor(r, w1), Xor(r, w2), 32);
      XorSelfLeft(r, w1, w2);
      assert false;
    }
  }

  lemma AllWithin(w: bv32)
    ensures Within(w, 0xFFFFFFFF)
  {}

  lemma XorSelfLeft(r: bv32, a: bv32, b: bv32)
    ensures Xor(r, a) == Xor(r, b) ==> a == b
  {}

  /** Two messages of one length that differ only inside a window of at most 32 bits, aligned
      or not, never share a checksum. */
  lemma BurstDetected(poly: bv32, crc: bv32, pre: seq<bool>, m1: seq<bool>, m2: seq<bool>, post: seq<bool>)
    requires poly & 0x80000000 != 0
    requires |m1| == |m2| <= 32 && m1 != m2
    ensures Divide(poly, crc, pre + m1 + post) != Divide(poly, crc, pre + m2 + post)
  {
    var r := Divide(poly, crc, pre);
    var pad := seq(32 - |m1|, i => false);
    DivideConcat(poly, crc, pre + m1, post);
    DivideConcat(poly, crc, pre + m2, post);
    DivideConcat(poly, crc, pre, m1);
    DivideConcat(poly, crc, pre, m2);
    DivideConcat(poly, r, m1, pad);
    DivideConcat(poly, r, m2, pad);
    assert m1 == (m1 + pad)[..|m1|] && m2 == (m2 + pad)[..|m1|];
    WordsDiffer(poly, r, m1 + pad, m2 + pad);
    if Divide(poly, crc, pre + m1 + post) == Divide(poly, crc, pre + m2 + post) {
      DivideInjective(poly, Divide(poly, r, m1), Divide(poly, r, m2), post);
      assert false;
    }
  }

  lemma {:induction false} MessageBitsInjective(a: seq<bv8>, b: seq<bv8>)
    requires |a| == |b| && MessageBits(a) == MessageBits(b)
    ensures a == b
    decreases |a|
  {
    if a == [] {
    } else {
      assert MessageBits(a)[..8] == ByteBits(a[0]) && MessageBits(a)[8..] == MessageBits(a[1..]);
      assert MessageBits(b)[..8] == ByteBits(b[0]) && MessageBits(b)[8..] == MessageBits(b[1..]);
      MessageBitsInjective(a[1..], b[1..]);
      ByteBitsInjective(a[0] as bv32, b[0] as bv32, 8);
      EightShiftsClear(a[0] as bv32);
      EightShiftsClear(b[0] as bv32);
      assert a == [a[0]] + a[1..] && b == [b[0]] + b[1..];
    }
  }

  lemma {:induction false} ByteBitsInjective(a: bv32, b: bv32, n: nat)
    requires LowBits(a, n) == LowBits(b, n) && Shifted(a, n) == Shifted(b, n)
    ensures a == b
    decreases n
  {
    if n == 0 {
    } else {
      assert LowBits(a, n)[0] == LowBits(b, n)[0];
      assert LowBits(a, n)[1..] == LowBits(a >> 1, n - 1) && LowBits(b, n)[1..] == LowBits(b >> 1, n - 1);
      ByteBitsInjective(a >> 1, b >> 1, n - 1);
      LowBit(a);
      LowBit(b);
      SameHalves(a, b);
    }
  }

  lemma {:induction false} MessageBitsLength(a: seq<bv8>)
    ensures |MessageBits(a)| == 8 * |a|
  {
    if a == [] {
    } else {
      MessageBitsLength(a[1..]);
    }
  }

  /** Changing at most four consecutive bytes of a message always changes either checksum. */
  lemma FourByteErrorDetected(crc: bv32, pre: seq<bv8>, m1: seq<bv8>, m2: seq<bv8>, post: seq<bv8>)
    requires |m1| == |m2| <= 4 && m1 != m2
    ensures Divide(POLY_CRC32C, crc, MessageBits(pre + m1 + post)) !=
        Divide(POLY_CRC32C, crc, MessageBits(pre + m2 + post))
    ensures Divide(POLY_CRC32, crc, MessageBits(pre + m1 + post)) !=
        Divide(POLY_CRC32, crc, MessageBits(pre + m2 + post))
  {
    MessageBitsConcat(pre + m1, post);
    MessageBitsConcat(pre, m1);
    MessageBitsConcat(pre + m2, post);
    MessageBitsConcat(pre, m2);
    MessageBitsLength(m1);
    MessageBitsLength(m2);
    if MessageBits(m1) == MessageBits(m2) {
      MessageBitsInjective(m1, m2);
      assert false;
    }
    BurstDetected(POLY_CRC32C, crc, MessageBits(pre), MessageBits(m1), MessageBits(m2), MessageBits(post));
    BurstDetected(POLY_CRC32, crc, MessageBits(pre), MessageBits(m1), MessageBits(m2), MessageBits(post));
  }

  // ----- The tables -----

  function Entry(poly: bv32, x: bv8): bv32 { ByteSteps(poly, x as bv32) }

  function HighNibble(i: bv8): bv8 { i << 4 }

  /** Sixteen entries that share their high nibble, whose own entry is s. */
  function Row(poly: bv32, s: bv32): (r: seq<bv32>)
    ensures |r| == 16
  {
    [Xor(s, Entry(poly, 0)), Xor(s, Entry(poly, 1)), Xor(s, Entry(poly, 2)), Xor(s, Entry(poly, 3)),
     Xor(s, Entry(poly, 4)), Xor(s, Entry(poly, 5)), Xor(s, Entry(poly, 6)), Xor(s, Entry(poly, 7)),
     Xor(s, Entry(poly, 8)), Xor(s, Entry(poly, 9)), Xor(s, Entry(poly, 10)), Xor(s, Entry(poly, 11)),
     Xor(s, Entry(poly, 12)), Xor(s, Entry(poly, 13)), Xor(s, Entry(poly, 14)), Xor(s, Entry(poly, 15))]
  }

  function RowCrc32(s: bv32): (r: seq<bv32>)
    ensures |r| == 16
  {
    [Xor(s, 0x00000000), Xor(s, 0x77073096), Xor(s, 0xEE0E612C), Xor(s, 0x990951BA),
     Xor(s, 0x076DC419), Xor(s, 0x706AF48F), Xor(s, 0xE963A535), Xor(s, 0x9E6495A3),
     Xor(s, 0x0EDB8832), Xor(s, 0x79DCB8A4), Xor(s, 0xE0D5E91E), Xor(s, 0x97D2D988),
     Xor(s, 0x09B64C2B), Xor(s, 0x7EB17CBD), Xor(s, 0xE7B82D07), Xor(s, 0x90BF1D91)]
  }

  function RowCrc32c(s: bv32): (r: seq<bv32>)
    ensures |r| == 16
  {
    [Xor(s, 0x00000000), Xor(s, 0xF26B8303), Xor(s, 0xE13B70F7), Xor(s, 0x1350F3F4),
     Xor(s, 0xC79A971F), Xor(s, 0x35F1141C), Xor(s, 0x26A1E7E8), Xor(s, 0xD4CA64EB),
     Xor(s, 0x8AD958CF), Xor(s, 0x78B2DBCC), Xor(s, 0x6BE22838), Xor(s, 0x9989AB3B),
     Xor(s, 0x4D43CFD0), Xor(s, 0xBF284CD3), Xor(s, 0xAC78BF27), Xor(s, 0x5E133C24)]
  }

  function Table(poly: bv32): seq<bv32> {
    Row(poly, Entry(poly, 0)) + Row(poly, Entry(poly, 16)) + Row(poly, Entry(poly, 32)) + Row(poly, Entry(poly, 48)) +
    Row(poly, Entry(poly, 64)) + Row(poly, Entry(poly, 80)) + Row(poly, Entry(poly, 96)) + Row(poly, Entry(poly, 112)) +
    Row(poly, Entry(poly, 128)) + Row(poly, Entry(poly, 144)) + Row(poly, Entry(poly, 160)) +
      Row(poly, Entry(poly, 176)) +
    Row(poly, Entry(poly, 192)) + Row(poly, Entry(poly, 208)) + Row(poly, Entry(poly, 224)) +
      Row(poly, Entry(poly, 240))
  }

  lemma EntriesCrc32()
    ensures Entry(POLY_CRC32, 0) == 0x00000000 && Entry(POLY_CRC32, 1) == 0x77073096
        && Entry(POLY_CRC32, 2) == 0xEE0E612C && Entry(POLY_CRC32, 3) == 0x990951BA
    ensures Entry(POLY_CRC32, 4) == 0x076DC419 && Entry(POLY_CRC32, 5) == 0x706AF48F
        && Entry(POLY_CRC32, 6) == 0xE963A535 && Entry(POLY_CRC32, 7) == 0x9E6495A3
    ensures Entry(POLY_CRC32, 8) == 0x0EDB8832 && Entry(POLY_CRC32, 9) == 0x79DCB8A4
        && Entry(POLY_CRC32, 10) == 0xE0D5E91E && Entry(POLY_CRC32, 11) == 0x97D2D988
    ensures Entry(POLY_CRC32, 12) == 0x09B64C2B && Entry(POLY_CRC32, 13) == 0x7EB17CBD
        && Entry(POLY_CRC32, 14) == 0xE7B82D07 && Entry(POLY_CRC32, 15) == 0x90BF1D91
    ensures Entry(POLY_CRC32, 16) == 0x1DB71064 && Entry(POLY_CRC32, 32) == 0x3B6E20C8
        && Entry(POLY_CRC32, 48) == 0x26D930AC && Entry(POLY_CRC32, 64) == 0x76DC4190
    ensures Entry(POLY_CRC32, 80) == 0x6B6B51F4 && Entry(POLY_CRC32, 96) == 0x4DB26158
        && Entry(POLY_CRC32, 112) == 0x5005713C && Entry(POLY_CRC32, 128) == 0xEDB88320
    ensures Entry(POLY_CRC32, 144) == 0xF00F9344 && Entry(POLY_CRC32, 160) == 0xD6D6A3E8
        && Entry(POLY_CRC32, 176) == 0xCB61B38C && Entry(POLY_CRC32, 192) == 0x9B64C2B0
    ensures Entry(POLY_CRC32, 208) == 0x86D3D2D4 && Entry(POLY_CRC32, 224) == 0xA00AE278
        && Entry(POLY_CRC32, 240) == 0xBDBDF21C
  {}

  lemma EntriesCrc32c()
    ensures Entry(POLY_CRC32C, 0) == 0x00000000 && Entry(POLY_CRC32C, 1) == 0xF26B8303
        && Entry(POLY_CRC32C, 2) == 0xE13B70F7 && Entry(POLY_CRC32C, 3) == 0x1350F3F4
    ensures Entry(POLY_CRC32C, 4) == 0xC79A971F && Entry(POLY_CRC32C, 5) == 0x35F1141C
        && Entry(POLY_CRC32C, 6) == 0x26A1E7E8 && Entry(POLY_CRC32C, 7) == 0xD4CA64EB
    ensures Entry(POLY_CRC32C, 8) == 0x8AD958CF && Entry(POLY_CRC32C, 9) == 0x78B2DBCC
        && Entry(POLY_CRC32C, 10) == 0x6BE22838 && Entry(POLY_CRC32C, 11) == 0x9989AB3B
    ensures Entry(POLY_CRC32C, 12) == 0x4D43CFD0 && Entry(POLY_CRC32C, 13) == 0xBF284CD3
        && Entry(POLY_CRC32C, 14) == 0xAC78BF27 && Entry(POLY_CRC32C, 15) == 0x5E133C24
    ensures Entry(POLY_CRC32C, 16) == 0x105EC76F && Entry(POLY_CRC32C, 32) == 0x20BD8EDE
        && Entry(POLY_CRC32C, 48) == 0x30E349B1 && Entry(POLY_CRC32C, 64) == 0x417B1DBC
    ensures Entry(POLY_CRC32C, 80) == 0x5125DAD3 && Entry(POLY_CRC32C, 96) == 0x61C69362
        && Entry(POLY_CRC32C, 112) == 0x7198540D && Entry(POLY_CRC32C, 128) == 0x82F63B78
    ensures Entry(POLY_CRC32C, 144) == 0x92A8FC17 && Entry(POLY_CRC32C, 160) == 0xA24BB5A6
        && Entry(POLY_CRC32C, 176) == 0xB21572C9 && Entry(POLY_CRC32C, 192) == 0xC38D26C4
    ensures Entry(POLY_CRC32C, 208) == 0xD3D3E1AB && Entry(POLY_CRC32C, 224) == 0xE330A81A
        && Entry(POLY_CRC32C, 240) == 0xF36E6F75
  {}

  lemma RowsCrc32()
    ensures CRC32_TAB ==
      RowCrc32(0x00000000) + RowCrc32(0x1DB71064) + RowCrc32(0x3B6E20C8) + RowCrc32(0x26D930AC) +
      RowCrc32(0x76DC4190) + RowCrc32(0x6B6B51F4) + RowCrc32(0x4DB26158) + RowCrc32(0x5005713C) +
      RowCrc32(0xEDB88320) + RowCrc32(0xF00F9344) + RowCrc32(0xD6D6A3E8) + RowCrc32(0xCB61B38C) +
      RowCrc32(0x9B64C2B0) + RowCrc32(0x86D3D2D4) + RowCrc32(0xA00AE278) + RowCrc32(0xBDBDF21C)
  {}

  lemma RowsCrc32c()
    ensures CRC32C_TAB ==
      RowCrc32c(0x00000000) + RowCrc32c(0x105EC76F) + RowCrc32c(0x20BD8EDE) + RowCrc32c(0x30E349B1) +
      RowCrc32c(0x417B1DBC) + RowCrc32c(0x5125DAD3) + RowCrc32c(0x61C69362) + RowCrc32c(0x7198540D) +
      RowCrc32c(0x82F63B78) + RowCrc32c(0x92A8FC17) + RowCrc32c(0xA24BB5A6) + RowCrc32c(0xB21572C9) +
      RowCrc32c(0xC38D26C4) + RowCrc32c(0xD3D3E1AB) + RowCrc32c(0xE330A81A) + RowCrc32c(0xF36E6F75)
  {}

  lemma RowIsRow(s: bv32)
    ensures RowCrc32(s) == Row(POLY_CRC32, s)
    ensures RowCrc32c(s) == Row(POLY_CRC32C, s)
  {
    EntriesCrc32();
    EntriesCrc32c();
  }

  lemma RowAt(poly: bv32, s: bv32, j: bv8)
    requires j < 16
    ensures Row(poly, s)[j as int] == Xor(s, Entry(poly, j))
  {
    var f: bv8 -> bv32 := i => Xor(s, Entry(poly, i));
    assert Row(poly, s) ==
      [f(0), f(1), f(2), f(3), f(4), f(5), f(6), f(7),
       f(8), f(9), f(10), f(11), f(12), f(13), f(14), f(15)];
    At16(Row(poly, s), f, j);
  }

  lemma TableAt(poly: bv32, x: bv8)
    ensures EntryRight(Table(poly), poly, x)
  {
    var hi, lo := x >> 4, x & 15;
    Nibbles(x);
    TableAtNibbles(poly, hi, lo);
    ByteStepsLinear(poly, HighNibble(hi) as bv32, lo as bv32);
    NibblesJoin(x);
  }

  lemma TableAtNibbles(poly: bv32, hi: bv8, lo: bv8)
    requires hi < 16 && lo < 16
    ensures |Table(poly)| == 256
    ensures Table(poly)[16 * (hi as int) + (lo as int)] == Xor(Entry(poly, HighNibble(hi)), Entry(poly, lo))
  {
    hide Entry, Row;
    var f: bv8 -> seq<bv32> := i => Row(poly, Entry(poly, HighNibble(i)));
    assert Table(poly) == f(0) + f(1) + f(2) + f(3) + f(4) + f(5) + f(6) + f(7) +
      f(8) + f(9) + f(10) + f(11) + f(12) + f(13) + f(14) + f(15);
    Flat16(Table(poly), f, hi, lo);
    RowAt(poly, Entry(poly, HighNibble(hi)), lo);
  }

  lemma NibblesJoin(x: bv8)
    ensures Xor(HighNibble(x >> 4) as bv32, (x & 15) as bv32) == x as bv32
  {}

  lemma Crc32TableIs()
    ensures CRC32_TAB == Table(POLY_CRC32)
  {
    RowsCrc32();
    EntriesCrc32();
    RowIsRow(0x00000000); RowIsRow(0x1DB71064); RowIsRow(0x3B6E20C8); RowIsRow(0x26D930AC);
    RowIsRow(0x76DC4190); RowIsRow(0x6B6B51F4); RowIsRow(0x4DB26158); RowIsRow(0x5005713C);
    RowIsRow(0xEDB88320); RowIsRow(0xF00F9344); RowIsRow(0xD6D6A3E8); RowIsRow(0xCB61B38C);
    RowIsRow(0x9B64C2B0); RowIsRow(0x86D3D2D4); RowIsRow(0xA00AE278); RowIsRow(0xBDBDF21C);
  }

  lemma Crc32cTableIs()
    ensures CRC32C_TAB == Table(POLY_CRC32C)
  {
    RowsCrc32c();
    EntriesCrc32c();
    RowIsRow(0x00000000); RowIsRow(0x105EC76F); RowIsRow(0x20BD8EDE); RowIsRow(0x30E349B1);
    RowIsRow(0x417B1DBC); RowIsRow(0x5125DAD3); RowIsRow(0x61C69362); RowIsRow(0x7198540D);
    RowIsRow(0x82F63B78); RowIsRow(0x92A8FC17); RowIsRow(0xA24BB5A6); RowIsRow(0xB21572C9);
    RowIsRow(0xC38D26C4); RowIsRow(0xD3D3E1AB); RowIsRow(0xE330A81A); RowIsRow(0xF36E6F75);
  }

  /** Every entry of crc32_tab is eight division steps of its index by the CRC-32 polynomial. */
  lemma Crc32TableRight()
    ensures TableFor(CRC32_TAB, POLY_CRC32)
  {
    Crc32TableIs();
    forall x: bv8
      ensures EntryRight(CRC32_TAB, POLY_CRC32, x)
    {
      TableAt(POLY_CRC32, x);
    }
    TableAt(POLY_CRC32, 0);
  }

  /** Every entry of crc32c_tab is eight division steps of its index by the Castagnoli polynomial. */
  lemma Crc32cTableRight()
    ensures TableFor(CRC32C_TAB, POLY_CRC32C)
  {
    Crc32cTableIs();
    forall x: bv8
      ensures EntryRight(CRC32C_TAB, POLY_CRC32C, x)
    {
      TableAt(POLY_CRC32C, x);
    }
    TableAt(POLY_CRC32C, 0);
  }
}
