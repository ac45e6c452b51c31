/**
 * _mingw_output_format_control(): get and set the MinGW-specific printf
 * output format flags, never touching the Microsoft-owned exponent-digit
 * bits. The value of _EXPONENT_DIGIT_MASK comes from a header that is not
 * part of this model, so it is a parameter of the flag register.
 */
module OfmtCtl {
  /** The flag state after a call with the two masks. */
  function NewFlags(flags: bv32, keep: bv32, toSet: bv32, mask: bv32): bv32
  {
    (flags & (keep | mask)) | (toSet & !mask)
  }

  /** The mask bits never change; the other bits become (old & keep) | set. */
  lemma NewFlagsSplit(flags: bv32, keep: bv32, toSet: bv32, mask: bv32)
    ensures NewFlags(flags, keep, toSet, mask) & mask == flags & mask
    ensures NewFlags(flags, keep, toSet, mask) & !mask == ((flags & keep) | toSet) & !mask
  {
  }

  /** keep = ~0 and set = 0 is a pure query. */
  lemma QueryLeavesFlags(flags: bv32, mask: bv32)
    ensures NewFlags(flags, !0, 0, mask) == flags
  {
  }

  /** Two calls compose: the second sees the first one's result. */
  lemma ClearThenSet(flags: bv32, bit: bv32, mask: bv32)
    requires bit & mask == 0
    ensures NewFlags(flags, !0, bit, mask) & bit == bit
    ensures NewFlags(NewFlags(flags, !0, bit, mask), !bit, 0, mask) & bit == 0
  {
  }

  /** The global __mingw_output_format_flags word. */
  class OutputFormat {
    var flags: bv32
    const mask: bv32

    constructor (initial: bv32, exponentDigitMask: bv32)
      ensures flags == initial && mask == exponentDigitMask
    {
      flags := initial;
      mask := exponentDigitMask;
    }

    /** Returns the previous MinGW bits; the exponent-digit bits are masked out. */
    method Control(keep: bv32, toSet: bv32) returns (prev: bv32)
      modifies this
      ensures prev == old(flags) & !mask
      ensures flags == NewFlags(old(flags), keep, toSet, mask)
    {
      prev := flags & !mask;
      flags := (flags & (keep | mask)) | (toSet & !mask);
    }
  }
}
