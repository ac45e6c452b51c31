// Aligned heap allocation arithmetic (memalign.c): alignment validation and
// normalization, header padding, round-down alignment of addresses, and the
// alignment header that __mingw_aligned_offset_malloc writes in front of the
// data block, checked by reading it back as __mingw_memalign_base does.
// Addresses and sizes are Win32 uintptr_t/size_t values, 0 <= x < 2^32.

module MemAlign {
  import opened CInt

  const EINVAL: int := 22
  const ENOMEM: int := 12

  const SizeofPtr: int := 4
  const SizeofSizeT: int := 4
  /** A header holds at least one size_t and the base pointer. */
  const SizeofHdr: int := 8
  /** The malloc() alignment on Win32: a char followed by an 8-aligned union. */
  const MinAlignment: int := 8

  const OverAligned: nat := 1
  const OffsetAligned: nat := 2
  const FlagsMask: nat := 3

  // ------------------------------------------------------------- bitwise

  function BitAnd(a: nat, b: nat): nat
  {
    if a == 0 || b == 0 then 0
    else (if a % 2 == 1 && b % 2 == 1 then 1 else 0) + 2 * BitAnd(a / 2, b / 2)
  }

  function BitOr(a: nat, b: nat): nat
  {
    if a == 0 then b
    else if b == 0 then a
    else (if a % 2 == 1 || b % 2 == 1 then 1 else 0) + 2 * BitOr(a / 2, b / 2)
  }

  function BitXor(a: nat, b: nat): nat
  {
    if a == 0 then b
    else if b == 0 then a
    else (if a % 2 != b % 2 then 1 else 0) + 2 * BitXor(a / 2, b / 2)
  }

  lemma ModTwice(x: nat, m: nat)
    requires m > 0
    ensures x % (2 * m) == x % 2 + 2 * ((x / 2) % m)
  {
    var q, r := (x / 2) / m, (x / 2) % m;
    assert x / 2 == q * m + r;
    assert x == q * (2 * m) + (2 * r + x % 2);
    ModOfDecomposition(x, q, 2 * r + x % 2, 2 * m);
  }

  /** One step of the bitwise recursion, for a, b > 0. */
  lemma AndStep(a: nat, b: nat)
    requires a > 0 && b > 0
    ensures BitAnd(a, b) == (if a % 2 == 1 && b % 2 == 1 then 1 else 0) + 2 * BitAnd(a / 2, b / 2)
  {
  }

  /** The low k bits of x, spelled out bit by bit. */
  function LowBits(x: nat, k: nat): nat
  {
    if k == 0 then 0 else x % 2 + 2 * LowBits(x / 2, k - 1)
  }

  lemma {:induction false} LowBitsIsMod(x: nat, k: nat)
    ensures LowBits(x, k) == x % Pow2(k)
  {
    if k == 0 {
      ModSmall(0, 1);
    } else {
      var m := Pow2(k - 1);
      assert Pow2(k) == 2 * m;
      LowBitsIsMod(x / 2, k - 1);
      ModTwice(x, m);
    }
  }

  lemma {:induction false} AndLowBits(x: nat, k: nat)
    ensures BitAnd(x, Pow2(k) - 1) == LowBits(x, k)
  {
    if k > 0 && x == 0 {
      ZeroLowBits(k);
    } else if k > 0 {
      var d := Pow2(k - 1) - 1;
      assert Pow2(k) - 1 == 2 * d + 1;
      AndOddMask(x, d);
      AndLowBits(x / 2, k - 1);
    }
  }

  lemma {:induction false} ZeroLowBits(k: nat)
    ensures LowBits(0, k) == 0
  {
    if k > 0 {
      ZeroLowBits(k - 1);
    }
  }

  /** Masking with 2^k - 1 keeps the low k bits. */
  lemma AndLowMask(x: nat, k: nat)
    ensures BitAnd(x, Pow2(k) - 1) == x % Pow2(k)
  {
    AndLowBits(x, k);
    LowBitsIsMod(x, k);
  }

  lemma AndOddMask(x: nat, d: nat)
    requires x > 0
    ensures BitAnd(x, 2 * d + 1) == x % 2 + 2 * BitAnd(x / 2, d)
  {
    assert (2 * d + 1) % 2 == 1 && (2 * d + 1) / 2 == d;
    AndStep(x, 2 * d + 1);
  }

  lemma ModSmall(x: nat, m: nat)
    requires x < m
    ensures x % m == x
  {
  }

  lemma HalfOfDouble(d: nat)
    ensures (2 * d) % 2 == 0 && (2 * d) / 2 == d
  {
  }

  /** Masking a value below 2^n with 2^n - 2^k clears its low k bits. */
  lemma AndHighMask(x: nat, n: nat, k: nat)
    requires k <= n && x < Pow2(n)
    ensures Pow2(k) <= Pow2(n)
    ensures BitAnd(x, Pow2(n) - Pow2(k)) == x - x % Pow2(k)
  {
    Pow2Bound(k, n);
    AndHighBits(x, n, k);
    LowBitsIsMod(x, k);
  }

  lemma {:induction false} AndHighBits(x: nat, n: nat, k: nat)
    requires k <= n && x < Pow2(n)
    ensures Pow2(k) <= Pow2(n)
    ensures BitAnd(x, Pow2(n) - Pow2(k)) == x - LowBits(x, k)
  {
    Pow2Bound(k, n);
    if x == 0 || k == 0 || k == n {
      AndHighEdge(x, n, k);
    } else {
      var m, h := Pow2(k - 1), Pow2(n - 1);
      assert 2 * m == Pow2(k) && 2 * h == Pow2(n);
      assert m < h by { Pow2Bound(k, n - 1); }
      var y := x / 2;
      var low := LowBits(y, k - 1);
      assert BitAnd(y, h - m) == y - low by { AndHighBits(y, n - 1, k - 1); }
      assert BitAnd(x, 2 * (h - m)) == x - (x % 2 + 2 * low) by { AndHighCombine(x, h, m, low); }
      assert LowBits(x, k) == x % 2 + 2 * low;
    }
  }

  /** The cases with no recursion: x == 0, an empty mask, or a full mask. */
  lemma AndHighEdge(x: nat, n: nat, k: nat)
    requires k <= n && x < Pow2(n) && (x == 0 || k == 0 || k == n)
    requires Pow2(k) <= Pow2(n)
    ensures BitAnd(x, Pow2(n) - Pow2(k)) == x - LowBits(x, k)
  {
    if x == 0 {
      ZeroLowBits(k);
    } else if k == 0 {
      AndHighNone(x, n);
    } else {
      LowBitsSmall(x, n);
    }
  }

  lemma AndHighNone(x: nat, n: nat)
    requires x < Pow2(n)
    ensures BitAnd(x, Pow2(n) - Pow2(0)) == x - LowBits(x, 0)
  {
    AndLowBits(x, n);
    LowBitsSmall(x, n);
  }

  lemma AndHighCombine(x: nat, h: nat, m: nat, low: int)
    requires 0 < m < h && x > 0
    requires BitAnd(x / 2, h - m) == x / 2 - low
    ensures BitAnd(x, 2 * (h - m)) == x - (x % 2 + 2 * low)
  {
    AndEvenMask(x, h - m);
    assert x == 2 * (x / 2) + x % 2;
  }

  /** A value below 2^n is its own low n bits. */
  lemma LowBitsSmall(x: nat, n: nat)
    requires x < Pow2(n)
    ensures LowBits(x, n) == x
  {
    LowBitsIsMod(x, n);
    ModSmall(x, Pow2(n));
  }

  lemma AndEvenMask(x: nat, d: nat)
    requires d > 0
    ensures BitAnd(x, 2 * d) == 2 * BitAnd(x / 2, d)
  {
    HalfOfDouble(d);
    if x > 0 {
      AndStep(x, 2 * d);
    }
  }

  /** Or-ing bits below 2^k into a multiple of 2^k adds them. */
  lemma {:induction false} OrIntoZeros(b: nat, f: nat, k: nat)
    requires b % Pow2(k) == 0 && f < Pow2(k)
    ensures BitOr(b, f) == b + f
  {
    if b != 0 && f != 0 {
      var m := Pow2(k - 1);
      assert Pow2(k) == 2 * m;
      ModTwice(b, m);
      assert b % 2 == 0;
      OrIntoZeros(b / 2, f / 2, k - 1);
    }
  }

  /** Xor with the low k bits of x clears them. */
  lemma {:induction false} XorLowBits(x: nat, k: nat)
    ensures BitXor(x, x % Pow2(k)) == x - x % Pow2(k)
  {
    if k == 0 {
      assert x % Pow2(k) == 0;
    } else if x == 0 {
      assert x % Pow2(k) == 0;
    } else {
      var m := Pow2(k - 1);
      assert Pow2(k) == 2 * m;
      XorLowBits(x / 2, k - 1);
      XorStep(x, m);
    }
  }

  lemma XorStep(x: nat, m: nat)
    requires m > 0 && x > 0
    requires BitXor(x / 2, (x / 2) % m) == x / 2 - (x / 2) % m
    ensures BitXor(x, x % (2 * m)) == x - x % (2 * m)
  {
    ModTwice(x, m);
    var h, r := x / 2, (x / 2) % m;
    var low := x % (2 * m);
    if low != 0 {
      HalfOf(x % 2, r, low);
      XorStepUnfold(x, low);
      assert BitXor(x, low) == 2 * (h - r);
    }
  }

  lemma XorStepUnfold(a: nat, b: nat)
    requires a > 0 && b > 0
    ensures BitXor(a, b) == (if a % 2 != b % 2 then 1 else 0) + 2 * BitXor(a / 2, b / 2)
  {
  }

  lemma HalfOf(bit: nat, r: nat, v: nat)
    requires bit < 2 && v == bit + 2 * r
    ensures v % 2 == bit && v / 2 == r
  {
  }

  lemma {:induction false} AndSelf(a: nat)
    ensures BitAnd(a, a) == a
  {
    if a > 0 {
      AndSelf(a / 2);
    }
  }

  lemma {:induction false} Pow2Bound(k: nat, n: nat)
    requires k <= n
    ensures Pow2(k) <= Pow2(n)
  {
    if k < n {
      Pow2Bound(k, n - 1);
    }
  }

  // ------------------------------------------------------- power of two

  /** is_power_of_two on a C int: positive and x & (x - 1) == 0. */
  predicate IsPowerOfTwo(x: int)
  {
    x > 0 && BitAnd(x, x - 1) == 0
  }

  lemma PowIsPowerOfTwo(k: nat)
    ensures IsPowerOfTwo(Pow2(k))
  {
    AndLowMask(Pow2(k), k);
  }

  lemma {:induction false} PowerOfTwoLog(x: int) returns (k: nat)
    requires IsPowerOfTwo(x)
    ensures x == Pow2(k)
  {
    if x % 2 == 1 {
      if x > 1 {
        AndStep(x, x - 1);
        AndSelf(x / 2);
      }
      k := 0;
    } else {
      AndStep(x, x - 1);
      assert (x - 1) / 2 == x / 2 - 1;
      var j := PowerOfTwoLog(x / 2);
      k := j + 1;
    }
  }

  // ------------------------------------------------------- normalization

  /**
   * memalign_normalized: an alignment below the minimum becomes the
   * minimum.  (The fallback search for a power of two is unreachable since
   * the minimum, 8, is one; see MinAlignmentIsPowerOfTwo.)
   */
  function Normalized(alignment: int): int
  {
    if alignment < MinAlignment then MinAlignment else alignment
  }

  lemma MinAlignmentIsPowerOfTwo()
    ensures IsPowerOfTwo(MinAlignment)
  {
    PowIsPowerOfTwo(3);
  }

  lemma NormalizedProps(alignment: int)
    ensures Normalized(alignment) >= MinAlignment
    ensures alignment >= MinAlignment ==> Normalized(alignment) == alignment
    ensures alignment < MinAlignment ==> Normalized(alignment) == MinAlignment
    ensures IsPowerOfTwo(alignment) ==> IsPowerOfTwo(Normalized(alignment))
  {
    MinAlignmentIsPowerOfTwo();
  }

  /**
   * memalign_padding: room for the alignment slack, an aligned pointer
   * slot and one size_t, plus a second size_t when both flags are set.
   */
  function Padding(flags: nat, alignment: int): int
  {
    U32(alignment + SizeofPtr - 1 + SizeofSizeT
        + (if BitAnd(flags, FlagsMask) == FlagsMask then SizeofSizeT else 0))
  }

  /** aligned(): (ptr + offset) masked with ~(alignment - 1), in uintptr_t. */
  function Aligned(ptr: int, alignment: int, offset: int): int
  {
    BitAnd(U32(ptr + offset), U32(TWO32 - 1 - U32(alignment - 1)))
  }

  /** aligned_ptr(): the aligned position of offset + padding, less offset. */
  function AlignedPtr(ptr: int, alignment: int, offset: int, padding: int): int
  {
    U32(Aligned(ptr, alignment, offset + padding) - offset)
  }

  /** For a power of two below 2^32, aligned() rounds ptr + offset down to a multiple. */
  lemma AlignedRoundsDown(ptr: int, k: nat, offset: int)
    requires k < 32 && 0 <= ptr + offset < TWO32
    ensures Aligned(ptr, Pow2(k), offset) == (ptr + offset) - (ptr + offset) % Pow2(k)
  {
    var x, a := ptr + offset, Pow2(k);
    AndTopMask(x, k);
    U32Id(x);
    U32Id(a - 1);
    U32Id(TWO32 - a);
  }

  /** The complement of 2^k - 1 in 32 bits clears the low k bits. */
  lemma AndTopMask(x: int, k: nat)
    requires k < 32 && 0 <= x < TWO32
    ensures 0 < Pow2(k) <= TWO32
    ensures BitAnd(x, TWO32 - Pow2(k)) == x - x % Pow2(k)
  {
    Pow2Of32();
    AndHighMask(x, 32, k);
  }

  lemma U32Id(x: int)
    requires 0 <= x < TWO32
    ensures U32(x) == x
  {
  }

  lemma Pow2Of32()
    ensures Pow2(32) == TWO32
  {
    assert Pow2(8) == 256;
    assert Pow2(16) == 256 * 256 by { Pow2Add(8, 8); }
    Pow2Add(16, 16);
  }

  lemma {:induction false} Pow2Add(a: nat, b: nat)
    ensures Pow2(a + b) == Pow2(a) * Pow2(b)
  {
    if a > 0 {
      Pow2Add(a - 1, b);
    }
  }

  /**
   * The pointer aligned_ptr returns is offset-aligned (r + offset is a
   * multiple of the alignment) and lies in (ptr + padding - alignment,
   * ptr + padding], provided the block does not wrap the address space.
   */
  lemma AlignedPtrProps(ptr: int, k: nat, offset: int, padding: int)
    requires k < 32 && 0 <= ptr && 0 <= offset && Pow2(k) <= padding
    requires ptr + offset + padding < TWO32
    ensures var r := AlignedPtr(ptr, Pow2(k), offset, padding);
      (r + offset) % Pow2(k) == 0
      && ptr + padding - Pow2(k) < r <= ptr + padding
  {
    var a := Pow2(k);
    var x := ptr + offset + padding;
    var y := x - x % a;
    assert Aligned(ptr, a, offset + padding) == y by { AlignedRoundsDown(ptr, k, offset + padding); }
    RoundDownFacts(x, a, offset);
    assert AlignedPtr(ptr, a, offset, padding) == y - offset by { U32Id(y - offset); }
  }

  /** Rounding x down to a multiple of a, then moving back by offset. */
  lemma RoundDownFacts(x: int, a: int, offset: int)
    requires a > 0
    ensures var r := x - x % a - offset;
      (r + offset) % a == 0 && x - offset - a < r <= x - offset
  {
    ModOfDecomposition(x - x % a, x / a, 0, a);
  }

  // --------------------------------------------------------------- heap

  /** Word reads of the heap; never-written words read as 0. */
  function Read(mem: map<int, int>, addr: int): int
  {
    if addr in mem then mem[addr] else 0
  }

  /**
   * __mingw_memalign_base: recover the base of an aligned block from the
   * header before ptr when the low-water mark and the stored parameters
   * reproduce ptr, else ptr itself.
   */
  function MemalignBase(mem: map<int, int>, lwm: int, ptr: int): (r: int)
    requires 0 <= ptr < TWO32
    ensures r == ptr || (0 < lwm <= r <= ptr - SizeofHdr)
  {
    if ptr == 0 then 0
    else if lwm > 0 && ptr >= lwm + SizeofHdr then
      var word := U32(Read(mem, Aligned(ptr, SizeofPtr, -SizeofPtr)));
      var flags := BitAnd(word, FlagsMask);
      var ref := BitXor(word, flags);
      if ref >= lwm && ptr - SizeofHdr >= ref then
        var alignment := if BitAnd(flags, OverAligned) == 0 then MinAlignment else Read(mem, ref);
        var offset := if BitAnd(flags, OffsetAligned) == 0 then 0
                      else Read(mem, ref + SizeofSizeT * ((1 + flags) / 4));
        if AlignedPtr(ref, alignment, offset, Padding(flags, alignment)) == ptr then ref else ptr
      else ptr
    else ptr
  }

  /** The header flags for an offset and a normalized alignment. */
  function HeaderFlags(offset: int, alignment: int): (f: nat)
    ensures f <= FlagsMask
    ensures (f == 0) <==> (offset == 0 && alignment <= MinAlignment)
  {
    (if offset != 0 then OffsetAligned else 0) + (if alignment > MinAlignment then OverAligned else 0)
  }

  /** The size __mingw_aligned_offset_malloc asks malloc() for, when it does not wrap. */
  function Request(want: int, align: int, offset: int): int
  {
    var a := Normalized(align);
    var flags := HeaderFlags(offset, a);
    if flags == 0 then want else want + Padding(flags, a)
  }

  /**
   * The block after the header stores: the alignment first when over-aligned,
   * then the offset when offset-aligned, and the flagged base pointer in the
   * pointer slot just below ret.
   */
  function HeaderWrite(mem: map<int, int>, block: int, alignment: int, offset: int, flags: nat, ret: int): map<int, int>
  {
    var m1 := if flags % 2 == 1 then mem[block := alignment] else mem;
    var m2 := if flags >= 2 then m1[block + SizeofSizeT * (flags % 2) := offset] else m1;
    m2[Aligned(ret, SizeofPtr, -SizeofPtr) := block + flags]
  }

  lemma FlagBits(flags: nat)
    requires 1 <= flags <= 3
    ensures BitAnd(flags, FlagsMask) == flags
    ensures BitAnd(flags, OverAligned) == flags % 2
    ensures BitAnd(flags, OffsetAligned) == (if flags >= 2 then OffsetAligned else 0)
    ensures (1 + flags) / 4 == (if flags == 3 then 1 else 0)
  {
    if flags == 1 {
      assert BitAnd(1, 3) == 1 && BitAnd(1, 1) == 1 && BitAnd(1, 2) == 0;
    } else if flags == 2 {
      assert BitAnd(2, 3) == 2 && BitAnd(2, 1) == 0 && BitAnd(2, 2) == 2;
    } else {
      assert BitAnd(3, 3) == 3 && BitAnd(3, 1) == 1 && BitAnd(3, 2) == 2;
    }
  }

  lemma PaddingValue(flags: nat, a: int)
    requires 1 <= flags <= 3 && 0 < a < TWO31
    ensures Padding(flags, a) == a + 7 + (if flags == 3 then 4 else 0)
  {
    assert BitAnd(flags, FlagsMask) == flags by { FlagBits(flags); }
    U32Id(a + 7 + (if flags == 3 then 4 else 0));
  }

  lemma Pow2Below31(k: nat)
    requires k < 31
    ensures Pow2(k) < TWO31
  {
    Pow2Bound(k, 30);
    Pow2Of31();
    assert Pow2(31) == 2 * Pow2(30);
  }

  lemma Pow2Of31()
    ensures Pow2(31) == TWO31
  {
    Pow2Of32();
  }

  lemma LowOf(block: int, flags: int)
    requires 0 <= flags < 4 && block % 8 == 0
    ensures (block + flags) % 4 == flags && (block + flags) - (block + flags) % 4 == block
  {
    var q := block / 8;
    assert block == 8 * q;
    ModOfDecomposition(block + flags, 2 * q, flags, 4);
  }

  lemma OrLow2(block: nat, flags: nat)
    requires block % 8 == 0 && flags < 4
    ensures BitOr(block, flags) == block + flags
  {
    assert Pow2(2) == 4;
    OrIntoZeros(block, flags, 2);
  }

  lemma AndLow2(w: nat)
    ensures BitAnd(w, 3) == w % 4
  {
    assert Pow2(2) == 4;
    AndLowMask(w, 2);
  }

  lemma XorLow2(w: nat)
    ensures BitXor(w, w % 4) == w - w % 4
  {
    assert Pow2(2) == 4;
    XorLowBits(w, 2);
  }

  /** The pointer slot lies in [ret - 7, ret - 4]. */
  lemma SlotBounds(ret: int)
    requires 4 <= ret < TWO32
    ensures ret - 7 <= Aligned(ret, SizeofPtr, -SizeofPtr) <= ret - 4
  {
    assert Pow2(2) == SizeofPtr;
    AlignedRoundsDown(ret, 2, -SizeofPtr);
  }

  /**
   * Where the pieces of a header go: ret lies past the stored words and
   * inside the padding, and the pointer slot lies between them.
   */
  lemma HeaderLayout(block: int, k: nat, offset: int, flags: nat)
    requires 3 <= k < 31 && 0 <= offset && 1 <= flags <= 3 && 0 < block
    requires block + offset + Padding(flags, Pow2(k)) < TWO32
    ensures var a := Pow2(k);
      var ret := AlignedPtr(block, a, offset, Padding(flags, a));
      var slot := Aligned(ret, SizeofPtr, -SizeofPtr);
      && ret <= block + Padding(flags, a)
      && (ret + offset) % a == 0
      && block + 8 + (if flags == 3 then 4 else 0) <= ret
      && ret - 7 <= slot <= ret - 4
  {
    var a := Pow2(k);
    Pow2Below31(k);
    assert 8 <= a by { Pow2Bound(3, k); assert Pow2(3) == 8; }
    PaddingValue(flags, a);
    var pad := Padding(flags, a);
    AlignedPtrProps(block, k, offset, pad);
    SlotBounds(AlignedPtr(block, a, offset, pad));
  }

  /** The words HeaderWrite stores read back, given the slot is clear of them. */
  lemma HeaderReads(mem: map<int, int>, block: int, a: int, offset: int, flags: nat, ret: int)
    requires 1 <= flags <= 3
    requires block + 8 + (if flags == 3 then 4 else 0) <= ret
    requires ret - 7 <= Aligned(ret, SizeofPtr, -SizeofPtr)
    ensures var mem2 := HeaderWrite(mem, block, a, offset, flags, ret);
      && Read(mem2, Aligned(ret, SizeofPtr, -SizeofPtr)) == block + flags
      && (flags % 2 == 1 ==> Read(mem2, block) == a)
      && (flags >= 2 ==> Read(mem2, block + SizeofSizeT * (if flags == 3 then 1 else 0)) == offset)
  {
  }

  /**
   * __mingw_memalign_base on a header with the given contents returns its
   * block.
   */
  lemma BaseFromHeader(mem: map<int, int>, lwm: int, ret: int, block: int, flags: nat, a: int, offset: int)
    requires 0 < lwm <= block && block % MinAlignment == 0 && block + 8 <= ret < TWO32
    requires 1 <= flags <= 3
    requires Read(mem, Aligned(ret, SizeofPtr, -SizeofPtr)) == block + flags
    requires flags % 2 == 1 ==> Read(mem, block) == a
    requires flags % 2 == 0 ==> a == MinAlignment
    requires flags >= 2 ==> Read(mem, block + SizeofSizeT * (if flags == 3 then 1 else 0)) == offset
    requires flags < 2 ==> offset == 0
    requires AlignedPtr(block, a, offset, Padding(flags, a)) == ret
    ensures MemalignBase(mem, lwm, ret) == block
  {
    var word := U32(Read(mem, Aligned(ret, SizeofPtr, -SizeofPtr)));
    assert word == block + flags by { U32Id(block + flags); }
    assert BitAnd(word, FlagsMask) == flags by { AndLow2(word); LowOf(block, flags); }
    assert BitXor(word, flags) == block by { XorLow2(word); LowOf(block, flags); }
    FlagBits(flags);
  }

  /**
   * Reading the header back: __mingw_memalign_base recovers the block from
   * the pointer __mingw_aligned_offset_malloc returned, for every power of
   * two alignment from 8 to 2^30 and every flag combination.
   */
  lemma HeaderReadBack(mem: map<int, int>, lwm: int, block: int, k: nat, offset: int)
    requires 3 <= k < 31 && 0 <= offset
    requires HeaderFlags(offset, Pow2(k)) != 0
    requires 0 < lwm <= block && block % MinAlignment == 0
    requires block + offset + Padding(HeaderFlags(offset, Pow2(k)), Pow2(k)) < TWO32
    ensures var a := Pow2(k);
      var flags := HeaderFlags(offset, a);
      var ret := AlignedPtr(block, a, offset, Padding(flags, a));
      MemalignBase(HeaderWrite(mem, block, a, offset, flags, ret), lwm, ret) == block
  {
    var a := Pow2(k);
    var flags := HeaderFlags(offset, a);
    var ret := AlignedPtr(block, a, offset, Padding(flags, a));
    HeaderLayout(block, k, offset, flags);
    HeaderReads(mem, block, a, offset, flags, ret);
    assert 8 <= a by { Pow2Bound(3, k); assert Pow2(3) == 8; }
    assert flags % 2 == 0 ==> a == MinAlignment;
    assert flags < 2 ==> offset == 0;
    assert ret < TWO32;
    var mem2 := HeaderWrite(mem, block, a, offset, flags, ret);
    assert Read(mem2, Aligned(ret, SizeofPtr, -SizeofPtr)) == block + flags;
    assert flags % 2 == 1 ==> Read(mem2, block) == a;
    assert flags >= 2 ==> Read(mem2, block + SizeofSizeT * (if flags == 3 then 1 else 0)) == offset;
    BaseFromHeader(HeaderWrite(mem, block, a, offset, flags, ret), lwm, ret, block, flags, a, offset);
  }

  /** The request size as written: want + padding in size_t, which can wrap. */
  function RequestSize(want: int, padding: int): int
  {
    U32(want + padding)
  }

  /** A large request with 16-byte alignment wraps to a 7-byte malloc. */
  lemma RequestSizeWraps()
    ensures Padding(OverAligned, 16) == 23
    ensures RequestSize(0xFFFF_FFF0, Padding(OverAligned, 16)) == 7
  {
  }

  class Heap {
    var mem: map<int, int>
    var lwm: int
    var errno: int

    constructor ()
      ensures mem == map[] && lwm == 0
    {
      mem := map[];
      lwm := 0;
      errno := 0;
    }

    /**
     * __mingw_aligned_offset_malloc, with `block` the address malloc()
     * returns for the request (0 when it fails).  An invalid request
     * fails with EINVAL; one needing no header goes to malloc(want)
     * unchanged; a padded size that does not fit in size_t fails with
     * ENOMEM.  Otherwise the header is written and the returned pointer is
     * offset-aligned inside the block, past the header words; reading the
     * header back from it recovers the block.
     */
    method AlignedOffsetMalloc(want: int, align: int, offset: int, block: int) returns (ret: int)
      requires 0 <= want < TWO32 && 0 <= align < TWO32 && 0 <= offset < TWO32
      requires block == 0 || (0 < block && block % MinAlignment == 0 && block + Request(want, align, offset) < TWO32)
      requires 0 <= lwm < TWO32
      modifies this
      ensures !ValidRequest(want, align, offset) ==>
        ret == 0 && errno == EINVAL && mem == old(mem) && lwm == old(lwm)
      ensures ValidRequest(want, align, offset) && !NeedsHeader(align, offset) ==>
        ret == block && mem == old(mem) && lwm == old(lwm)
      ensures ValidRequest(want, align, offset) && NeedsHeader(align, offset) && !PaddedFits(want, align, offset) ==>
        ret == 0 && errno == ENOMEM && mem == old(mem) && lwm == old(lwm)
      ensures ValidRequest(want, align, offset) && NeedsHeader(align, offset) && PaddedFits(want, align, offset)
              && block == 0 ==>
        ret == 0 && mem == old(mem) && lwm == old(lwm)
      ensures ValidRequest(want, align, offset) && NeedsHeader(align, offset) && PaddedFits(want, align, offset)
              && block != 0 ==>
        var a := Normalized(align);
        var flags := HeaderFlags(offset, a);
        && ret == AlignedPtr(block, a, offset, Padding(flags, a))
        && lwm == (if old(lwm) == 0 || block < old(lwm) then block else old(lwm))
        && mem == HeaderWrite(old(mem), block, a, offset, flags, ret)
        && AllocationFacts(mem, lwm, block, a, offset, ret)
      ensures 0 <= lwm < TWO32
    {
      if !(IsPowerOfTwo(I32(align)) && (offset == 0 || want > offset)) {
        errno := EINVAL;
        return 0;
      }
      var flags: nat := if offset != 0 then OffsetAligned else 0;
      var a := Normalized(align);
      if a > MinAlignment {
        SetOverAligned(flags);
        flags := BitOr(flags, OverAligned);
      }
      assert flags == HeaderFlags(offset, a);
      if flags == 0 {
        return block;
      }
      ghost var k := AlignmentLog(align);
      ret := PaddedMalloc(want, a, k, offset, flags, block);
    }

    /** The header-carrying path, for flags != 0 and a = 2^k. */
    method PaddedMalloc(want: int, a: int, ghost k: nat, offset: int, flags: nat, block: int) returns (ret: int)
      requires 3 <= k < 31 && a == Pow2(k) && 0 <= want < TWO32 && 0 <= offset && (offset == 0 || offset < want)
      requires flags != 0 && flags == HeaderFlags(offset, a)
      requires block == 0 || (0 < block && block % MinAlignment == 0
                              && block + want + Padding(flags, a) < TWO32)
      requires 0 <= lwm < TWO32
      modifies this
      ensures want + Padding(flags, a) >= TWO32 ==>
        ret == 0 && errno == ENOMEM && mem == old(mem) && lwm == old(lwm)
      ensures want + Padding(flags, a) < TWO32 && block == 0 ==>
        ret == 0 && mem == old(mem) && lwm == old(lwm)
      ensures want + Padding(flags, a) < TWO32 && block != 0 ==>
        && ret == AlignedPtr(block, a, offset, Padding(flags, a))
        && lwm == (if old(lwm) == 0 || block < old(lwm) then block else old(lwm))
        && mem == HeaderWrite(old(mem), block, a, offset, flags, ret)
        && AllocationFacts(mem, lwm, block, a, offset, ret)
      ensures 0 <= lwm < TWO32
    {
      var padding := Padding(flags, a);
      if want + padding >= TWO32 {
        errno := ENOMEM;
        return 0;
      }
      if block == 0 {
        return 0;
      }
      ghost var mem0 := mem;
      ret := AlignedPtr(block, a, offset, padding);
      RecordLowWaterMark(block);
      StoreHeader(block, a, offset, flags, ret);
      AllocationCorrect(mem0, lwm, block, k, offset, want);
    }

    /** record_low_water_mark: the lowest header-carrying block seen so far. */
    method RecordLowWaterMark(ptr: int)
      requires 0 < ptr < TWO32
      modifies this
      ensures lwm == (if old(lwm) == 0 || ptr < old(lwm) then ptr else old(lwm))
      ensures mem == old(mem) && errno == old(errno)
    {
      if lwm == 0 || ptr < lwm {
        lwm := ptr;
      }
    }

    /**
     * The header stores of __mingw_aligned_offset_malloc: the alignment
     * when over-aligned, the offset after it when offset-aligned, and the
     * flagged base pointer at the pointer slot below ret.
     */
    method StoreHeader(block: int, a: int, offset: int, flags: nat, ret: int)
      requires 0 < block && block % MinAlignment == 0 && 1 <= flags <= 3 && block + flags < TWO32
      modifies this
      ensures mem == HeaderWrite(old(mem), block, a, offset, flags, ret)
      ensures lwm == old(lwm) && errno == old(errno)
    {
      FlagBits(flags);
      if BitAnd(flags, OverAligned) == OverAligned {
        mem := mem[block := a];
      }
      if BitAnd(flags, OffsetAligned) == OffsetAligned {
        mem := mem[block + SizeofSizeT * (if BitAnd(flags, OverAligned) != 0 then 1 else 0) := offset];
      }
      OrLow2(block, flags);
      mem := mem[Aligned(ret, SizeofPtr, -SizeofPtr) := BitOr(block, flags)];
    }
  }

  lemma SetOverAligned(flags: nat)
    requires flags == 0 || flags == OffsetAligned
    ensures BitOr(flags, OverAligned) == flags + OverAligned
  {
  }

  /** is_power_of_two(align) as a C int, and a non-zero offset below want. */
  predicate ValidRequest(want: int, align: int, offset: int)
  {
    IsPowerOfTwo(I32(align)) && (offset == 0 || want > offset)
  }

  predicate NeedsHeader(align: int, offset: int)
  {
    HeaderFlags(offset, Normalized(align)) != 0
  }

  /** want + padding is representable in size_t. */
  predicate PaddedFits(want: int, align: int, offset: int)
  {
    var a := Normalized(align);
    want + Padding(HeaderFlags(offset, a), a) < TWO32
  }

  /**
   * What a successful header-carrying allocation guarantees: ret is
   * offset-aligned, lies past the header words and inside the padding, and
   * __mingw_memalign_base maps it back to the block.
   */
  predicate AllocationFacts(mem: map<int, int>, lwm: int, block: int, a: int, offset: int, ret: int)
  {
    var flags := HeaderFlags(offset, a);
    && a > 0
    && (ret + offset) % a == 0
    && block + 8 <= ret <= block + Padding(flags, a)
    && 0 <= ret < TWO32
    && MemalignBase(mem, lwm, ret) == block
  }

  lemma AllocationCorrect(mem: map<int, int>, lwm: int, block: int, k: nat, offset: int, want: int)
    requires 3 <= k < 31 && 0 <= offset && 0 <= want && (offset == 0 || offset < want)
    requires HeaderFlags(offset, Pow2(k)) != 0
    requires 0 < lwm <= block && block % MinAlignment == 0
    requires block + want + Padding(HeaderFlags(offset, Pow2(k)), Pow2(k)) < TWO32
    ensures var a := Pow2(k);
      var flags := HeaderFlags(offset, a);
      var ret := AlignedPtr(block, a, offset, Padding(flags, a));
      AllocationFacts(HeaderWrite(mem, block, a, offset, flags, ret), lwm, block, a, offset, ret)
  {
    var a := Pow2(k);
    var flags := HeaderFlags(offset, a);
    assert block + offset + Padding(flags, a) < TWO32;
    HeaderLayout(block, k, offset, flags);
    HeaderReadBack(mem, lwm, block, k, offset);
  }

  /** A valid alignment normalizes to 2^k with 3 <= k < 31. */
  lemma AlignmentLog(align: int) returns (k: nat)
    requires 0 <= align < TWO32 && IsPowerOfTwo(I32(align))
    ensures 3 <= k < 31 && Normalized(align) == Pow2(k)
  {
    var j := PowerOfTwoLog(I32(align));
    assert align < TWO31;
    if j >= 31 {
      Pow2Bound(31, j);
      Pow2Of31();
    }
    if align < MinAlignment {
      k := 3;
    } else {
      k := j;
      if j < 3 {
        Pow2Bound(j, 2);
      }
    }
  }
}
