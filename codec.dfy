/** Address decoding and physical-address encoding (main_pr.c lines 9-12,
    280-281 and 319-320).

    The C code works on `uint32_t` values with `<<`, `>>` and `|`, and stores
    page number and offset in `uint8_t` variables.  Those operators are
    modelled here on unbounded integers with the 32-bit wrap-around of `<<`
    and the 8-bit truncation of the assignments written out explicitly. */
module AddressCodec {

  /** Sizes in bits. */
  const ADDR_SIZE: nat := 32
  const PAGE_NUM_SIZE: nat := 8
  const OFFSET_SIZE: nat := 8

  /** A C `uint32_t`. */
  type Uint32 = x: int | 0 <= x < 0x1_0000_0000

  function Pow2(n: nat): (r: nat)
    ensures r >= 1
  {
    if n == 0 then 1 else 2 * Pow2(n - 1)
  }

  /** `x << n` on a `uint32_t`: n doublings, each dropping the bit that
      leaves bit 31 (ShiftLeftWraps gives the closed form). */
  function ShiftLeft32(x: Uint32, n: nat): Uint32
    decreases n
  {
    if n == 0 then x else ShiftLeft32((x * 2) % 0x1_0000_0000, n - 1)
  }

  /** `x >> n` on an unsigned value: n halvings (ShiftRightDivides gives the
      closed form). */
  function ShiftRight(x: Uint32, n: nat): Uint32
    decreases n
  {
    if n == 0 then x else ShiftRight(x / 2, n - 1)
  }

  /** Bitwise `x | y` on non-negative integers, one bit at a time from the
      least significant end. */
  function BitOr(x: nat, y: nat): nat
    decreases x + y
  {
    if x == 0 && y == 0 then 0
    else (if x % 2 == 1 || y % 2 == 1 then 1 else 0) + 2 * BitOr(x / 2, y / 2)
  }

  /** Assignment of an unsigned value to a `uint8_t`. */
  function ToUint8(x: nat): nat
  {
    x % 256
  }

  /** `page_num = (addr << 16) >> 24`, stored in a `uint8_t` (line 280). */
  function PageNumber(addr: Uint32): nat
  {
    ToUint8(ShiftRight(ShiftLeft32(addr, ADDR_SIZE - (PAGE_NUM_SIZE + OFFSET_SIZE)),
                       ADDR_SIZE - PAGE_NUM_SIZE))
  }

  /** `offset = (addr << 24) >> 24`, stored in a `uint8_t` (line 281). */
  function Offset(addr: Uint32): nat
  {
    ToUint8(ShiftRight(ShiftLeft32(addr, ADDR_SIZE - OFFSET_SIZE), ADDR_SIZE - OFFSET_SIZE))
  }

  /** `frame_address = frame_num; frame_address = (frame_address << 8) | offset`
      (lines 319-320). */
  function FrameAddress(frame: Uint32, offset: nat): nat
  {
    BitOr(ShiftLeft32(frame, OFFSET_SIZE), offset)
  }

  lemma Pow2Values()
    ensures Pow2(8) == 256 && Pow2(16) == 65536
    ensures Pow2(24) == 0x100_0000 && Pow2(32) == 0x1_0000_0000
  {
  }

  lemma LowBitsBound(x: int, m: nat, k: nat)
    requires m >= 1 && k >= 1
    ensures 0 <= (x % m) * k < m * k
  {
    assert (m - x % m) * k >= k by { MulAtLeast(m - x % m, k); }
  }

  lemma MulAtLeast(a: int, d: int)
    requires d > 0 && a >= 1
    ensures a * d >= d
  {
  }

  /** Quotient and remainder are determined by any decomposition x == q*d + r. */
  lemma DivModUnique(x: int, d: int, q: int, r: int)
    requires d > 0 && x == q * d + r && 0 <= r < d
    ensures x / d == q && x % d == r
  {
    var q', r' := x / d, x % d;
    assert (q - q') * d == r' - r;
    if q - q' >= 1 { MulAtLeast(q - q', d); }
    if q' - q >= 1 { MulAtLeast(q' - q, d); }
  }

  /** A 32-bit left shift by k = 2^32 / m keeps exactly the low bits x % m,
      moved up by the factor k. */
  lemma LowBitsShift(x: Uint32, m: nat, k: nat)
    requires m >= 1 && k >= 1 && m * k == 0x1_0000_0000
    ensures (x * k) % 0x1_0000_0000 == (x % m) * k
  {
    var q, r := x / m, x % m;
    assert x * k == q * 0x1_0000_0000 + r * k;
    LowBitsBound(x, m, k);
    DivModUnique(x * k, 0x1_0000_0000, q, r * k);
  }

  /** Reducing a factor modulo m first does not change a product modulo m. */
  lemma MulMod(a: nat, b: nat, m: nat)
    requires m >= 1
    ensures ((a % m) * b) % m == (a * b) % m
  {
    var q, r := a / m, a % m;
    var q2, r2 := (r * b) / m, (r * b) % m;
    assert a * b == (q * b + q2) * m + r2;
    DivModUnique(a * b, m, q * b + q2, r2);
  }

  /** Dividing by a and then by b is dividing by a * b. */
  lemma DivDiv(x: nat, a: nat, b: nat)
    requires a >= 1 && b >= 1
    ensures (x / a) / b == x / (a * b)
  {
    var q1, r1 := x / a, x % a;
    var q2, r2 := q1 / b, q1 % b;
    assert x == (a * b) * q2 + (a * r2 + r1);
    assert a * r2 + r1 < a * b by {
      assert a * (b - r2) >= a by { MulAtLeast(b - r2, a); }
    }
    DivModUnique(x, a * b, q2, a * r2 + r1);
  }

  /** The 32-bit left shift is multiplication by 2^n modulo 2^32. */
  lemma {:induction false} ShiftLeftWraps(x: Uint32, n: nat)
    ensures ShiftLeft32(x, n) == (x * Pow2(n)) % 0x1_0000_0000
    decreases n
  {
    if n == 0 {
      DivModUnique(x, 0x1_0000_0000, 0, x);
    } else {
      var p, y := Pow2(n - 1), (x * 2) % 0x1_0000_0000;
      ShiftLeftWraps(y, n - 1);
      assert ShiftLeft32(x, n) == (y * p) % 0x1_0000_0000;
      MulMod(x * 2, p, 0x1_0000_0000);
      assert (x * 2) * p == x * Pow2(n) by {
        assert Pow2(n) == 2 * p;
      }
    }
  }

  /** The right shift is division by 2^n. */
  lemma {:induction false} ShiftRightDivides(x: Uint32, n: nat)
    ensures ShiftRight(x, n) == x / Pow2(n)
    decreases n
  {
    if n > 0 {
      ShiftRightDivides(x / 2, n - 1);
      DivDiv(x, 2, Pow2(n - 1));
    }
  }

  /** The page number is bits 15-8 of the address. */
  lemma PageNumberBits(addr: Uint32)
    ensures PageNumber(addr) == (addr / 256) % 256
  {
    var r := addr % 65536;
    assert ShiftLeft32(addr, 16) == r * 65536 by {
      Pow2Values();
      ShiftLeftWraps(addr, 16);
      LowBitsShift(addr, 65536, 65536);
    }
    assert ShiftRight(r * 65536, 24) == r / 256 by {
      Pow2Values();
      ShiftRightDivides(r * 65536, 24);
      assert r * 65536 == (r / 256) * 0x100_0000 + (r % 256) * 65536;
      DivModUnique(r * 65536, 0x100_0000, r / 256, (r % 256) * 65536);
    }
    assert (addr / 256) % 256 == r / 256 by {
      DivModUnique(addr, 256, (addr / 65536) * 256 + r / 256, r % 256);
      DivModUnique(addr / 256, 256, addr / 65536, r / 256);
    }
    DivModUnique(r / 256, 256, 0, r / 256);
  }

  /** The offset is bits 7-0 of the address. */
  lemma OffsetBits(addr: Uint32)
    ensures Offset(addr) == addr % 256
  {
    var r := addr % 256;
    assert ShiftLeft32(addr, 24) == r * 0x100_0000 by {
      Pow2Values();
      ShiftLeftWraps(addr, 24);
      LowBitsShift(addr, 256, 0x100_0000);
    }
    assert ShiftRight(r * 0x100_0000, 24) == r by {
      Pow2Values();
      ShiftRightDivides(r * 0x100_0000, 24);
      DivModUnique(r * 0x100_0000, 0x100_0000, r, 0);
    }
  }

  /** Decoding splits the low 16 bits of an address into page number
      (bits 15-8) and offset (bits 7-0). */
  lemma DecodeSplitsAddress(addr: Uint32)
    ensures PageNumber(addr) == (addr / 256) % 256
    ensures Offset(addr) == addr % 256
    ensures addr % 65536 == PageNumber(addr) * 256 + Offset(addr)
  {
    PageNumberBits(addr);
    OffsetBits(addr);
    var r := addr % 65536;
    DivModUnique(addr, 256, (addr / 65536) * 256 + r / 256, r % 256);
    DivModUnique(addr / 256, 256, addr / 65536, r / 256);
  }

  /** Bits above bit 15 never affect the decoded page number or offset. */
  lemma HighBitsIgnored(a: Uint32, b: Uint32)
    requires a % 65536 == b % 65536
    ensures PageNumber(a) == PageNumber(b) && Offset(a) == Offset(b)
  {
    DecodeSplitsAddress(a);
    DecodeSplitsAddress(b);
    var pa, pb := PageNumber(a), PageNumber(b);
    var oa, ob := Offset(a), Offset(b);
    DivModUnique(pa * 256 + oa, 256, pa, oa);
    DivModUnique(pb * 256 + ob, 256, pb, ob);
  }

  lemma {:induction false} BitOrZero(x: nat)
    ensures BitOr(x, 0) == x
    decreases x
  {
    if x != 0 { BitOrZero(x / 2); }
  }

  /** Or-ing a value into bits that are known to be zero is addition. */
  lemma {:induction false} BitOrDisjoint(x: nat, y: nat, n: nat)
    requires y < Pow2(n)
    ensures BitOr(x * Pow2(n), y) == x * Pow2(n) + y
    decreases n
  {
    if n == 0 {
      BitOrZero(x);
    } else {
      var h := x * Pow2(n - 1);
      assert x * Pow2(n) == 2 * h;
      BitOrDisjoint(x, y / 2, n - 1);
      assert (2 * h) % 2 == 0 && (2 * h) / 2 == h;
      if 2 * h != 0 || y != 0 {
        assert BitOr(2 * h, y) == (if y % 2 == 1 then 1 else 0) + 2 * BitOr(h, y / 2);
      }
    }
  }

  /** The physical address is frame * 256 + offset; with fewer than 128
      frames it is below 32768. */
  lemma EncodeIsFrameTimesPageSize(frame: Uint32, offset: nat)
    requires frame < 0x100_0000 && offset < 256
    ensures FrameAddress(frame, offset) == frame * 256 + offset
    ensures frame < 128 ==> FrameAddress(frame, offset) < 32768
  {
    Pow2Values();
    ShiftLeftWraps(frame, 8);
    DivModUnique(frame * 256, 0x1_0000_0000, 0, frame * 256);
    BitOrDisjoint(frame, offset, 8);
  }

  /** Decoding a physical address with the same shifts gives back the frame
      and the offset it was built from. */
  lemma DecodeEncode(frame: Uint32, offset: nat)
    requires frame < 256 && offset < 256
    ensures 0 <= FrameAddress(frame, offset) < 65536
    ensures PageNumber(FrameAddress(frame, offset)) == frame
    ensures Offset(FrameAddress(frame, offset)) == offset
  {
    EncodeIsFrameTimesPageSize(frame, offset);
    var a := frame * 256 + offset;
    DecodeSplitsAddress(a);
    DivModUnique(a, 65536, 0, a);
    DivModUnique(a, 256, frame, offset);
    DivModUnique(frame, 256, 0, frame);
  }
}
