/** Frames as byte strings, with big-endian 16- and 32-bit fields read and written at offsets,
    and the sum of 16-bit words that every Internet checksum is computed from. */
module Bytes {

  type Byte = b: nat | b < 0x100
  type Word = w: nat | w < 0x1_0000
  type Addr = a: nat | a < 0x1_0000_0000

  function Get16(s: seq<Byte>, off: nat): Word
    requires off + 2 <= |s|
  {
    s[off] as nat * 256 + s[off + 1]
  }

  function Put16(s: seq<Byte>, off: nat, w: Word): (r: seq<Byte>)
    requires off + 2 <= |s|
    ensures |r| == |s|
    ensures Get16(r, off) == w
    ensures forall k :: 0 <= k < |s| && k != off && k != off + 1 ==> r[k] == s[k]
  {
    s[off := w / 256][off + 1 := w % 256]
  }

  function High(a: Addr): Word { a / 0x1_0000 }

  function Low(a: Addr): Word { a % 0x1_0000 }

  function Get32(s: seq<Byte>, off: nat): Addr
    requires off + 4 <= |s|
  {
    Get16(s, off) * 0x1_0000 + Get16(s, off + 2)
  }

  function Put32(s: seq<Byte>, off: nat, a: Addr): (r: seq<Byte>)
    requires off + 4 <= |s|
    ensures |r| == |s|
    ensures Get32(r, off) == a
    ensures forall k :: 0 <= k < |s| && !(off <= k < off + 4) ==> r[k] == s[k]
  {
    Put16(Put16(s, off, High(a)), off + 2, Low(a))
  }

  /** Network byte order. */
  lemma BigEndian(s: seq<Byte>, off: nat)
    ensures off + 2 <= |s| ==> Get16(s, off) == 256 * s[off] as nat + s[off + 1]
    ensures off + 4 <= |s| ==>
              Get32(s, off) == 0x100_0000 * s[off] as nat + 0x1_0000 * s[off + 1] as nat
                               + 256 * s[off + 2] as nat + s[off + 3]
  {
  }

  /** The sum of the 16-bit words of s[lo..hi]; an odd last byte is the high half of a word. */
  function SumWords(s: seq<Byte>, lo: nat, hi: nat): nat
    requires hi <= |s|
    decreases hi - lo
  {
    if hi <= lo then 0
    else if hi == lo + 1 then s[lo] as nat * 256
    else Get16(s, lo) + SumWords(s, lo + 2, hi)
  }

  lemma {:induction false} SumAgrees(s: seq<Byte>, t: seq<Byte>, lo: nat, hi: nat)
    requires hi <= |s| && hi <= |t|
    requires forall k :: lo <= k < hi ==> s[k] == t[k]
    ensures SumWords(s, lo, hi) == SumWords(t, lo, hi)
    decreases hi - lo
  {
    if lo + 1 < hi {
      SumAgrees(s, t, lo + 2, hi);
    }
  }

  /** Writing an aligned word moves the sum by exactly the difference of the two words. */
  lemma {:induction false} SumAfterPut16(s: seq<Byte>, lo: nat, hi: nat, off: nat, w: Word)
    requires lo <= off && off + 2 <= hi <= |s| && (off - lo) % 2 == 0
    ensures SumWords(Put16(s, off, w), lo, hi) == SumWords(s, lo, hi) - Get16(s, off) + w
    decreases off - lo
  {
    var r := Put16(s, off, w);
    if off == lo {
      SumAgrees(s, r, lo + 2, hi);
    } else {
      SumAfterPut16(s, lo + 2, hi, off, w);
    }
  }

  /** An odd number of bytes is summed as if a zero byte followed (section 1 of RFC 1071). */
  lemma {:induction false} SumPadsWithZero(s: seq<Byte>, lo: nat)
    requires lo <= |s| && (|s| - lo) % 2 == 1
    ensures SumWords(s, lo, |s|) == SumWords(s + [0], lo, |s| + 1)
    decreases |s| - lo
  {
    if lo + 1 < |s| {
      SumPadsWithZero(s, lo + 2);
      assert Get16(s + [0], lo) == Get16(s, lo);
    }
  }

  lemma {:induction false} SumBound(s: seq<Byte>, lo: nat, hi: nat)
    requires hi <= |s|
    ensures SumWords(s, lo, hi) <= 0x8000 * (if lo <= hi then hi - lo + 1 else 0)
    decreases hi - lo
  {
    if lo + 1 < hi {
      SumBound(s, lo + 2, hi);
    }
  }

  /** Every word of the range is a summand: one non-zero aligned word makes the sum positive. */
  lemma {:induction false} SumAtLeast(s: seq<Byte>, lo: nat, hi: nat, off: nat)
    requires lo <= off && off + 2 <= hi <= |s| && (off - lo) % 2 == 0
    ensures Get16(s, off) <= SumWords(s, lo, hi)
    decreases off - lo
  {
    if off != lo {
      SumAtLeast(s, lo + 2, hi, off);
    }
  }
}
