/**
 * GetstringHash: the 32-bit FNV-1a hash of a delete string, cut down by the
 * compact mask and tagged in its two low bits with the string's length
 * (capped at 3), then cast to int.
 */
module Hashing {
  import opened Chars

  const FnvOffsetBasis: bv32 := 2166136261
  const FnvPrime: bv32 := 16777619

  /** FNV-1a over the characters of s, in unsigned 32-bit arithmetic. */
  function Fnv(s: string): bv32
    decreases |s|
  {
    if s == [] then FnvOffsetBasis else Mix(Fnv(s[..|s| - 1]), s[|s| - 1])
  }

  /** One FNV-1a step: exclusive-or with the character, then multiplication by the prime. */
  function Mix(hash: bv32, c: char): bv32 {
    (hash ^ Code(c)) * FnvPrime
  }

  /**
   * compactMask for a compaction level: UINT_MAX shifted right by
   * 3 + compactLevel and back left by 2, that is bits 2 to 30 - compactLevel.
   */
  function CompactMask(compactLevel: int): (r: bv32)
    requires 0 <= compactLevel <= 16
    ensures r == ((1 << (31 - compactLevel)) - 1) & !3
  {
    (0xFFFF_FFFF >> (3 + compactLevel)) << 2
  }

  /** The length tag: the length, capped at 3. */
  function LenMask(len: nat): (r: bv32)
    ensures r <= 3
  {
    if len > 3 then 3 else len as bv32
  }

  /** The bits of the hash before the cast to int. */
  function HashBits(s: string, compactMask: bv32): bv32 {
    (Fnv(s) & compactMask) | LenMask(|s|)
  }

  /** The conversion of an unsigned int to int: values of 2^31 and above wrap to negative. */
  function AsSigned(h: bv32): int {
    if h < 0x8000_0000 then h as int else h as int - 0x1_0000_0000
  }

  /** The hash a string is filed under. */
  function StringHash(s: string, compactMask: bv32): int {
    AsSigned(HashBits(s, compactMask))
  }

  /** GetstringHash, given the instance's compactMask. */
  method GetStringHash(s: string, compactMask: bv32) returns (r: int)
    ensures r == StringHash(s, compactMask)
  {
    var hash: bv32 := FnvOffsetBasis;
    for i := 0 to |s|
      invariant hash == Fnv(s[..i])
    {
      assert s[..i + 1][..i] == s[..i];
      hash := Mix(hash, s[i]);
    }
    assert s[..|s|] == s;
    hash := hash & compactMask;
    hash := hash | LenMask(|s|);
    r := AsSigned(hash);
  }

  /**
   * Under a valid compact mask the hash keeps only bits 0 to 30 - compactLevel:
   * it is never negative, and its two low bits are the length tag.
   */
  lemma HashBounds(s: string, compactLevel: int)
    requires 0 <= compactLevel <= 16
    ensures HashBits(s, CompactMask(compactLevel)) >> (31 - compactLevel) == 0
    ensures HashBits(s, CompactMask(compactLevel)) & 3 == LenMask(|s|)
    ensures StringHash(s, CompactMask(compactLevel)) >= 0
  {
  }

  /** Strings whose hashes agree agree in length, up to 3: the tag keeps short deletes apart. */
  lemma HashSeparatesLengths(a: string, b: string, compactLevel: int)
    requires 0 <= compactLevel <= 16
    requires HashBits(a, CompactMask(compactLevel)) == HashBits(b, CompactMask(compactLevel))
    ensures LenMask(|a|) == LenMask(|b|)
  {
    HashBounds(a, compactLevel);
    HashBounds(b, compactLevel);
  }
}
