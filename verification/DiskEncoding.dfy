/** The on-disk fields of ext4fsd/include/ext4_fs.h that pack two meanings into one word. */
module ExtentFields {

  const EXT_INIT_MAX_LEN: bv16 := 0x8000

  function LengthOf(field: bv16): bv16 {
    if field <= EXT_INIT_MAX_LEN then field else field - EXT_INIT_MAX_LEN
  }

  /** ext4_ext_pblk */
  function BlockOf(lo: bv32, hi: bv16): bv64 { (lo as bv64) | (((hi as bv64) << 31) << 1) }

  function Marked(field: bv16): bv16 { field | EXT_INIT_MAX_LEN }

  /** An extent as it lies in a tree block. */
  class DiskExtent {
    var ee_block: bv32
    var ee_len: bv16
    var ee_start_hi: bv16
    var ee_start_lo: bv32

    predicate IsUnwritten()
      reads this
    {
      ee_len > EXT_INIT_MAX_LEN
    }

    function ActualLen(): bv16
      reads this
    {
      LengthOf(ee_len)
    }

    function Pblk(): bv64
      reads this
    {
      BlockOf(ee_start_lo, ee_start_hi)
    }

    /** What the bits of the fields say, in numbers: a 16-bit length field above 0x8000 is that of an
        unwritten extent, and the length is the field without its top bit, but for 0x8000 itself; the
        physical block has 16 high bits and 32 low ones. */
    lemma FieldsMean()
      ensures IsUnwritten() <==> ee_len as int > 0x8000
      ensures ActualLen() as int == if ee_len as int == 0x8000 then 0x8000 else ee_len as int % 0x8000
      ensures Pblk() as int == (ee_start_hi as int) * 0x1_0000_0000 + (ee_start_lo as int)
      ensures IsUnwritten() == Unwritten(ee_len as int) && ActualLen() as int == Length(ee_len as int)
    {
      hide BlockOf, LengthOf, Length, Unwritten;
      StateInBits(ee_len);
      LengthInNumbers(ee_len);
      LengthMeans(ee_len as int);
      BlockOfMeans(ee_start_lo, ee_start_hi);
    }

    /** The assertion of the source: an unwritten extent of length zero does not exist. */
    method MarkUnwritten()
      requires ee_len & !EXT_INIT_MAX_LEN != 0
      modifies this`ee_len
      ensures IsUnwritten() && ActualLen() == old(ActualLen()) && 1 <= ActualLen() <= 0x7FFF
      ensures ee_len == Marked(old(ee_len))
    {
      MarkKeepsLength(ee_len);
      ee_len := Marked(ee_len);
    }

    method MarkInitialized()
      modifies this`ee_len
      ensures !IsUnwritten() && ActualLen() == old(ActualLen())
    {
      ee_len := ActualLen();
    }

    /** Stores a physical block number in its two parts; the 48 low bits come back. */
    method StorePblk(pb: bv64)
      modifies this`ee_start_lo, this`ee_start_hi
      ensures Pblk() == pb & 0xFFFF_FFFF_FFFF
      ensures Pblk() == pb <==> pb < 0x1_0000_0000_0000
      ensures ee_start_lo as int == pb as int % 0x1_0000_0000
      ensures ee_start_hi as int == pb as int / 0x1_0000_0000 % 0x1_0000
    {
      StoredParts(pb);
      ee_start_lo := (pb & 0xFFFFFFFF) as bv32;
      ee_start_hi := (((pb >> 31) >> 1) & 0xFFFF) as bv16;
      PartsJoin(pb);
      Low48(pb);
    }

    /** A length and a state written as the tree code writes them decode to themselves. */
    method StoreLength(len: bv16, unwritten: bool)
      requires if unwritten then 1 <= len <= 0x7FFF else len <= 0x8000
      modifies this`ee_len
      ensures IsUnwritten() == unwritten && ActualLen() == len
      ensures ee_len as int == (len as int) + if unwritten then 0x8000 else 0
    {
      ee_len := len;
      if unwritten {
        NonZeroBelowTop(len);
        MarkedInNumbers(len);
        MarkUnwritten();
      }
    }
  }

  // ----- The fields in numbers -----

  lemma LengthInNumbers(f: bv16)
    ensures f > EXT_INIT_MAX_LEN <==> Unwritten(f as int)
    ensures LengthOf(f) as int == Length(f as int)
  {
    hide LengthOf;
    Compared(f);
    LengthCases(f);
    if f > 0x8000 {
      Lowered(f);
    }
  }

  lemma LengthCases(f: bv16)
    ensures f > EXT_INIT_MAX_LEN <==> f > 0x8000
    ensures f > 0x8000 ==> LengthOf(f) == f - 0x8000
    ensures f <= 0x8000 ==> LengthOf(f) == f
  {}

  lemma StateInBits(f: bv16)
    ensures f > EXT_INIT_MAX_LEN <==> f > 0x8000
  {}

  lemma Compared(f: bv16)
    ensures f > 0x8000 <==> f as int > 0x8000
  {}

  lemma Lowered(f: bv16)
    requires f > 0x8000
    ensures (f - 0x8000) as int == f as int - 0x8000
  {}

  lemma MarkedInNumbers(len: bv16)
    requires 1 <= len <= 0x7FFF
    ensures Marked(len) as int == len as int + 0x8000
  {
    Raised(len);
  }

  lemma Raised(len: bv16)
    requires 1 <= len <= 0x7FFF
    ensures (len | 0x8000) as int == len as int + 0x8000
  {}

  /** A 64-bit number in its words. */
  predicate InWords(lo: bv32, hi: bv16, top: bv16, pb: bv64) {
    pb == (lo as bv64) | (((hi as bv64) << 31) << 1) | ((top as bv64) << 48)
  }

  lemma InWordsIs(lo: bv32, hi: bv16, top: bv16, pb: bv64)
    requires InWords(lo, hi, top, pb)
    ensures pb as int == (top as int) * 0x1_0000_0000_0000 + (hi as int) * 0x1_0000_0000 + (lo as int)
  {}

  lemma NoTop(lo: bv32, hi: bv16)
    ensures InWords(lo, hi, 0, BlockOf(lo, hi))
  {}

  lemma BlockOfMeans(lo: bv32, hi: bv16)
    ensures BlockOf(lo, hi) as int == (hi as int) * 0x1_0000_0000 + (lo as int)
  {
    hide *;
    NoTop(lo, hi);
    InWordsIs(lo, hi, 0, BlockOf(lo, hi));
  }

  function LowWord(pb: bv64): bv32 { (pb & 0xFFFFFFFF) as bv32 }

  function HighWord(pb: bv64): bv16 { (((pb >> 31) >> 1) & 0xFFFF) as bv16 }

  function TopWord(pb: bv64): bv16 { ((pb >> 48) & 0xFFFF) as bv16 }

  lemma StoredParts(pb: bv64)
    ensures LowWord(pb) as int == pb as int % 0x1_0000_0000
    ensures HighWord(pb) as int == pb as int / 0x1_0000_0000 % 0x1_0000
  {
    hide *;
    WordsJoin(pb);
    InWordsIs(LowWord(pb), HighWord(pb), TopWord(pb), pb);
    Digits(pb as int, TopWord(pb) as int, HighWord(pb) as int, LowWord(pb) as int);
  }

  lemma WordsJoin(pb: bv64)
    ensures InWords(LowWord(pb), HighWord(pb), TopWord(pb), pb)
  {}

  lemma Digits(n: int, top: int, hi: int, lo: int)
    requires n == top * 0x1_0000_0000_0000 + hi * 0x1_0000_0000 + lo && 0 <= hi < 0x1_0000 && 0 <= lo < 0x1_0000_0000
    ensures lo == n % 0x1_0000_0000 && hi == n / 0x1_0000_0000 % 0x1_0000
  {
    assert n == (top * 0x1_0000 + hi) * 0x1_0000_0000 + lo;
    assert n / 0x1_0000_0000 == top * 0x1_0000 + hi;
  }

  // ----- The fields in bits -----

  lemma MarkKeepsLength(len: bv16)
    requires len & !EXT_INIT_MAX_LEN != 0
    ensures Marked(len) > EXT_INIT_MAX_LEN
    ensures LengthOf(Marked(len)) == LengthOf(len)
    ensures 1 <= LengthOf(Marked(len)) <= 0x7FFF
  {
    MarkedField(len);
    LengthIsLow(len);
    LengthIsLow(Marked(len));
    LowFifteen(len);
  }

  lemma MarkedField(len: bv16)
    requires len & !EXT_INIT_MAX_LEN != 0
    ensures Marked(len) & 0x7FFF == len & 0x7FFF != 0
    ensures Marked(len) > EXT_INIT_MAX_LEN
    ensures len != EXT_INIT_MAX_LEN
  {
    MarkedBits(len);
  }

  lemma MarkedBits(len: bv16)
    ensures (len | 0x8000) & 0x7FFF == len & 0x7FFF
    ensures len & !(0x8000 as bv16) == len & 0x7FFF
    ensures len & 0x7FFF != 0 ==> len | 0x8000 > 0x8000
    ensures len & 0x7FFF != 0 ==> len != 0x8000
  {}

  lemma LengthIsLow(x: bv16)
    requires x != EXT_INIT_MAX_LEN
    ensures LengthOf(x) == x & 0x7FFF
  {
    DropMark(x);
  }

  lemma DropMark(x: bv16)
    ensures x >= 0x8000 ==> x - 0x8000 == x & 0x7FFF
    ensures x < 0x8000 ==> x & 0x7FFF == x
  {}

  lemma LowFifteen(len: bv16)
    ensures len & 0x7FFF <= 0x7FFF
    ensures len & 0x7FFF != 0 ==> 1 <= len & 0x7FFF
  {}

  lemma NonZeroBelowTop(len: bv16)
    requires 1 <= len <= 0x7FFF
    ensures len & !(0x8000 as bv16) != 0
  {}

  lemma PartsJoin(pb: bv64)
    ensures ((pb & 0xFFFFFFFF) as bv32 as bv64) | ((((((pb >> 31) >> 1) & 0xFFFF) as bv16 as bv64) << 31) << 1)
            == pb & 0xFFFF_FFFF_FFFF
  {}

  lemma Low48(pb: bv64)
    ensures pb & 0xFFFF_FFFF_FFFF == pb <==> pb < 0x1_0000_0000_0000
  {}

  /** On numbers: the length field is a pair of a state and a length, and every 16-bit value
      is the field of exactly one pair. */
  function EncodeLen(len: nat, unwritten: bool): nat { if unwritten then len + 0x8000 else len }

  predicate Unwritten(field: nat) { field > 0x8000 }

  function Length(field: nat): nat { if field <= 0x8000 then field else field - 0x8000 }

  predicate Encodable(len: nat, unwritten: bool) {
    if unwritten then 1 <= len <= 0x7FFF else len <= 0x8000
  }

  /** What a 16-bit field means: the top bit is the state and the other bits are the length, except that
      the field 0x8000 is a written extent of that length. */
  lemma LengthMeans(field: nat)
    requires field < 0x10000
    ensures Unwritten(field) <==> field > 0x8000
    ensures Length(field) == if field == 0x8000 then 0x8000 else field % 0x8000
  {}

  /** The field of an unwritten extent is its length with the bit of ext4_ext_mark_unwritten. */
  lemma EncodeLenMeans(len: bv16)
    ensures EncodeLen(len as int, false) == len as int
    ensures 1 <= len <= 0x7FFF ==> EncodeLen(len as int, true) == Marked(len) as int
  {
    if 1 <= len <= 0x7FFF {
      MarkedInNumbers(len);
    }
  }

  lemma LengthCodec(field: nat, len: nat, unwritten: bool)
    requires field < 0x10000
    ensures field == EncodeLen(len, unwritten) && Encodable(len, unwritten) <==>
            len == Length(field) && unwritten == Unwritten(field)
  {}
}

/** The 34-bit timestamps of ext4_fs.h: a signed 32-bit second count, and an extra word with two
    epoch bits under 30 bits of nanoseconds. */
module XTime {

  const WORD := 0x1_0000_0000
  const HALF := 0x8000_0000

  function AsUnsigned32(x: int): nat { x % WORD }

  function AsSigned32(x: int): int { (x + HALF) % WORD - HALF }

  /** ext4_encode_extra_time. The shifted nanoseconds leave the two low bits clear, so the
      source's bitwise or is a sum. */
  function EncodeExtra(sec: int, nsec: int): nat {
    AsUnsigned32((sec - AsSigned32(sec)) / WORD % 4 + nsec * 4)
  }

  class Timespec {
    var sec: int
    var nsec: int

    /** ext4_decode_extra_time */
    method DecodeExtra(extra: nat)
      modifies this
      ensures sec == old(sec) + extra % 4 * WORD
      ensures nsec == extra / 4
    {
      if extra % 4 != 0 {
        sec := sec + extra % 4 * WORD;
      }
      nsec := extra / 4;
    }
  }

  /** A time field of the raw inode and the field that extends it. Small inodes lack one or both. */
  class RawInode {
    var xtime: nat
    var xtimeExtra: nat
    const fits: bool
    const extraFits: bool

    constructor (fits: bool, extraFits: bool)
      ensures this.fits == fits && this.extraFits == extraFits
    {
      this.fits := fits;
      this.extraFits := extraFits;
      xtime := 0;
      xtimeExtra := 0;
    }

    /** EXT4_EINODE_SET_XTIME; EXT4_INODE_SET_XTIME is the case fits. */
    method SetXtime(time: Timespec)
      modifies this
      ensures fits ==> xtime == AsUnsigned32(time.sec)
      ensures extraFits ==> xtimeExtra == EncodeExtra(time.sec, time.nsec)
      ensures fits ==> 0 <= xtime < 0x1_0000_0000 && (time.sec - xtime) % 0x1_0000_0000 == 0
      ensures extraFits && 0 <= time.nsec < 0x4000_0000 ==>
                && xtimeExtra / 4 == time.nsec
                && xtimeExtra % 4 == (time.sec + 0x8000_0000) / 0x1_0000_0000 % 4
      ensures !fits ==> xtime == old(xtime)
      ensures !extraFits ==> xtimeExtra == old(xtimeExtra)
    {
      WordsMean(time.sec, time.nsec);
      if fits {
        xtime := AsUnsigned32(time.sec);
      }
      if extraFits {
        xtimeExtra := EncodeExtra(time.sec, time.nsec);
      }
    }

    /** EXT4_EINODE_GET_XTIME; EXT4_INODE_GET_XTIME is the case fits. */
    method GetXtime(time: Timespec)
      modifies time
      ensures (time.sec, time.nsec) == Loaded(fits, extraFits, xtime, xtimeExtra)
      ensures fits && extraFits && xtime < 0x1_0000_0000 ==>
                && time.sec == xtime +
                  xtimeExtra % 4 * 0x1_0000_0000 - (if xtime < 0x8000_0000 then 0 else 0x1_0000_0000)
                && time.nsec == xtimeExtra / 4
    {
      if fits {
        time.sec := AsSigned32(xtime);
      } else {
        time.sec := 0;
      }
      if extraFits {
        time.DecodeExtra(xtimeExtra);
      } else {
        time.nsec := 0;
      }
    }
  }

  function Loaded(fits: bool, extraFits: bool, xtime: nat, extra: nat): (int, int) {
    var sec := if fits then AsSigned32(xtime) else 0;
    if extraFits then (sec + extra % 4 * WORD, extra / 4) else (sec, 0)
  }

  /** Storing and loading through the macros. */
  method StoreThenLoad(raw: RawInode, time: Timespec, back: Timespec)
    requires time != back && raw.fits && raw.extraFits
    modifies raw, back
    ensures back.sec == old(time.sec) && back.nsec == old(time.nsec) <==>
            -HALF <= old(time.sec) < 4 * WORD - HALF && 0 <= old(time.nsec) < WORD / 4
  {
    raw.SetXtime(time);
    raw.GetXtime(back);
    RoundTripIff(time.sec, time.nsec);
  }

  /** The two words of a time: the seconds modulo 2^32; two epoch bits that count the spans of 2^32
      seconds from -2^31 on, below the nanoseconds. */
  lemma WordsMean(sec: int, nsec: int)
    ensures (sec - AsUnsigned32(sec)) % WORD == 0
    ensures 0 <= nsec < WORD / 4 ==>
        EncodeExtra(sec, nsec) / 4 == nsec && EncodeExtra(sec, nsec) % 4 == (sec + HALF) / WORD % 4
  {
    hide AsUnsigned32, AsSigned32;
    LowWordOf(sec);
    Epoch(sec);
    ExtraParts((sec + HALF) / WORD % 4, nsec);
    if 0 <= nsec < WORD / 4 {
      SmallRest(nsec);
    }
  }

  lemma LowWordOf(sec: int)
    ensures (sec - AsUnsigned32(sec)) % WORD == 0
  {}

  lemma SmallRest(nsec: int)
    requires 0 <= nsec < WORD / 4
    ensures nsec % (WORD / 4) == nsec
  {}

  lemma Epoch(sec: int)
    ensures (sec - AsSigned32(sec)) / WORD == (sec + HALF) / WORD
  {
    var q := (sec + HALF) / WORD;
    assert sec - AsSigned32(sec) == q * WORD;
  }

  /** A time comes back from the two words exactly when it is in the documented range. */
  lemma RoundTripIff(sec: int, nsec: int)
    ensures Loaded(true, true, AsUnsigned32(sec), EncodeExtra(sec, nsec)) == (sec, nsec) <==>
            -HALF <= sec < 4 * WORD - HALF && 0 <= nsec < WORD / 4
  {
    SignedOfUnsigned(sec);
    var k := (sec - AsSigned32(sec)) / WORD;
    var e := k % 4;
    assert EncodeExtra(sec, nsec) % 4 == e && EncodeExtra(sec, nsec) / 4 == nsec % (WORD / 4) by {
      ExtraParts(e, nsec);
    }
    assert sec == AsSigned32(sec) + k * WORD;
    assert e == k <==> 0 <= k < 4;
  }

  lemma SignedOfUnsigned(x: int)
    ensures AsSigned32(AsUnsigned32(x)) == AsSigned32(x)
    ensures (x - AsSigned32(x)) % WORD == 0
    ensures -HALF <= AsSigned32(x) < HALF
  {}

  lemma ExtraParts(e: nat, nsec: int)
    requires e < 4
    ensures AsUnsigned32(e + nsec * 4) % 4 == e
    ensures AsUnsigned32(e + nsec * 4) / 4 == nsec % (WORD / 4)
  {
    var q, r := nsec / (WORD / 4), nsec % (WORD / 4);
    assert nsec == q * (WORD / 4) + r;
    assert e + nsec * 4 == q * WORD + (e + r * 4);
    assert AsUnsigned32(e + nsec * 4) == e + r * 4;
  }

  /** Two times in the range that are stored alike are the same time. */
  lemma EncodingInjective(s1: int, n1: int, s2: int, n2: int)
    requires -HALF <= s1 < 4 * WORD - HALF && 0 <= n1 < WORD / 4
    requires -HALF <= s2 < 4 * WORD - HALF && 0 <= n2 < WORD / 4
    requires AsUnsigned32(s1) == AsUnsigned32(s2) && EncodeExtra(s1, n1) == EncodeExtra(s2, n2)
    ensures s1 == s2 && n1 == n2
  {
    RoundTripIff(s1, n1);
    RoundTripIff(s2, n2);
  }

  /** An inode without the extra word keeps whole seconds of the signed 32-bit range and no more. */
  lemma ShortRoundTripIff(sec: int, nsec: int)
    ensures Loaded(true, false, AsUnsigned32(sec), 0) == (sec, nsec) <==> -HALF <= sec < HALF && nsec == 0
  {
    SignedOfUnsigned(sec);
  }

  /** drv_types.h declares the signed 32-bit name as an unsigned type. With that declaration the
      cast inside ext4_encode_extra_time does not extend the sign. */
  function EncodeExtraAsDeclared(sec: int, nsec: int): nat {
    AsUnsigned32((sec - AsUnsigned32(sec)) / WORD % 4 + nsec * 4)
  }

  /** As declared, seconds survive exactly when they are not negative, below 2^34, and have bit 31 clear. */
  lemma DeclaredRoundTripIff(sec: int, nsec: int)
    requires 0 <= nsec < WORD / 4
    ensures Loaded(true, true, AsUnsigned32(sec), EncodeExtraAsDeclared(sec, nsec)) == (sec, nsec) <==>
            0 <= sec < 4 * WORD && sec % WORD < HALF
  {
    SignedOfUnsigned(sec);
    var k, low := sec / WORD, sec % WORD;
    ExtraParts(k % 4, nsec);
    SignBit(low, k);
    assert (sec - low) / WORD == k;
    assert sec == low + k * WORD;
    assert AsSigned32(sec) == if low < HALF then low else low - WORD;
    assert k % 4 == k <==> 0 <= k < 4;
  }

  lemma SignBit(low: nat, k: int)
    requires low < WORD
    ensures AsSigned32(low + k * WORD) == if low < HALF then low else low - WORD
  {
    assert low + k * WORD + HALF == (low + HALF) + k * WORD;
  }

  lemma DeclaredLosesHalf()
    ensures Loaded(true, true, AsUnsigned32(-1), EncodeExtraAsDeclared(-1, 0)) == (3 * WORD - 1, 0)
  {}
}
