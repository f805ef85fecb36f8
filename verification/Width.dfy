/** How many columns a code point takes (_lib/width.h, and cp_width of _lib/vt.c). */
module Width {
  const CJK_RANGES: seq<(nat, nat)> := [
    (0x1100, 0x115F), (0x2329, 0x232A), (0x2E80, 0x3029), (0x302E, 0x303E), (0x3041, 0x3098),
    (0x309B, 0xA4CF), (0xA960, 0xA97F), (0xAC00, 0xD7A3), (0xF900, 0xFAFF), (0xFE10, 0xFE19),
    (0xFE30, 0xFE6F), (0xFFE0, 0xFFE6), (0x16FE0, 0x1B2FB), (0x20000, 0x3FFFD)
  ]

  const EMOJI_RANGES: seq<(nat, nat)> := [
    (0x231A, 0x231B), (0x23E9, 0x23EC), (0x23F0, 0x23F0), (0x23F3, 0x23F3), (0x25FD, 0x25FE),
    (0x2614, 0x2615), (0x2648, 0x2653), (0x267F, 0x267F), (0x2693, 0x2693), (0x26A1, 0x26A1),
    (0x26AA, 0x26AB), (0x26BD, 0x26BE), (0x26C4, 0x26C5), (0x26CE, 0x26CE), (0x26D4, 0x26D4),
    (0x26EA, 0x26EA), (0x26F2, 0x26F3), (0x26F5, 0x26F5), (0x26FA, 0x26FA), (0x26FD, 0x26FD),
    (0x2705, 0x2705), (0x270A, 0x270B), (0x2728, 0x2728), (0x274C, 0x274C), (0x274E, 0x274E),
    (0x2753, 0x2755), (0x2757, 0x2757), (0x2795, 0x2797), (0x27B0, 0x27B0), (0x27BF, 0x27BF),
    (0x2B1B, 0x2B1C), (0x2B50, 0x2B50), (0x2B55, 0x2B55), (0xF004, 0xF004), (0xF0CF, 0xF0CF),
    (0xF18E, 0xF18E), (0xF191, 0xF19A), (0xF200, 0xF320), (0xF32D, 0xF335), (0xF337, 0xF37C),
    (0xF37E, 0xF393), (0xF3A0, 0xF3CA), (0xF3CF, 0xF3D3), (0xF3E0, 0xF3F0), (0xF3F4, 0xF3F4),
    (0xF3F8, 0xF43E), (0xF440, 0xF440), (0xF442, 0xF4FC), (0xF4FF, 0xF53D), (0xF54B, 0xF54E),
    (0xF550, 0xF567), (0xF57A, 0xF57A), (0xF595, 0xF596), (0xF5A4, 0xF5A4), (0xF5FB, 0xF64F),
    (0xF680, 0xF6C5), (0xF6CC, 0xF6CC), (0xF6D0, 0xF6D2), (0xF6D5, 0xF6DF), (0xF6EB, 0xF6EC),
    (0xF6F4, 0xF6FC), (0xF7E0, 0xF7F0), (0xF90C, 0xF93A), (0xF93C, 0xF945), (0xF947, 0xF9FF), (0xFA70, 0xFAF8)
  ]

  /** Whether cp lies in one of the ranges from the i-th on. */
  predicate InRanges(cp: nat, ranges: seq<(nat, nat)>, i: nat)
    requires i <= |ranges|
    decreases |ranges| - i
  {
    i < |ranges| && (ranges[i].0 <= cp <= ranges[i].1 || InRanges(cp, ranges, i + 1))
  }

  predicate CjkWide(cp: nat) {
    cp >= 0x1100 && (0xFF01 <= cp <= 0xFF60 || InRanges(cp, CJK_RANGES, 0))
  }

  /** Emoji above U+1F000 are looked up 0x10000 lower, in 16-bit ranges. */
  predicate EmojiWide(cp: nat) {
    if 0x1F000 <= cp < 0x20000 then InRanges(cp - 0x10000, EMOJI_RANGES, 0)
    else 0x231A <= cp <= 0x2B55 && InRanges(cp, EMOJI_RANGES, 0)
  }

  function CpWidth(cp: nat): (w: nat)
    ensures w <= 2
    ensures 0x20 <= cp < 0x1100 ==> w == 1
  {
    if cp == 0x200D || 0xFE00 <= cp <= 0xFE0F || 0x200B <= cp <= 0x200F then 0
    else if cp >= 0x1100 && (EmojiWide(cp) || CjkWide(cp)) then 2
    else 1
  }
}
