/** The Internet checksum: the looping fold that the self-test computes from scratch, the two-step
    folds of the fast paths, and the incremental update of section 3 of RFC 1624 (equation 3). */
module Checksum {
  import opened Bytes

  /** The looping fold of 16-bit carries. */
  function Fold(sum: nat): Word {
    if sum < 0x1_0000 then sum else Fold(sum % 0x1_0000 + sum / 0x1_0000)
  }

  /** The closed form: the representative of sum modulo 65535 that is zero only for a zero sum. */
  function Residue(sum: nat): Word {
    if sum == 0 then 0 else (sum - 1) % 0xFFFF + 1
  }

  /** Two carry folds on a 32-bit accumulator, truncated to 16 bits. */
  function TwoStepFold(sum: nat): Word {
    var once := sum % 0x1_0000 + sum / 0x1_0000;
    (once + once / 0x1_0000) % 0x1_0000
  }

  /** The checksum field that a sum of the other words calls for. */
  function FieldFor(sum: nat): Word { 0xFFFF - Fold(sum) }

  function UpdateChecksum16(check: Word, oldWord: Word, newWord: Word): Word {
    0xFFFF - TwoStepFold((0xFFFF - check) + (0xFFFF - oldWord) + newWord)
  }

  function UpdateChecksum32(check: Word, oldAddr: Addr, newAddr: Addr): Word {
    UpdateChecksum16(UpdateChecksum16(check, High(oldAddr), High(newAddr)), Low(oldAddr), Low(newAddr))
  }

  lemma {:induction false} ModCycles(a: nat, k: nat)
    ensures (a + 0xFFFF * k) % 0xFFFF == a % 0xFFFF
  {
    if k > 0 {
      ModCycles(a, k - 1);
      assert a + 0xFFFF * k == (a + 0xFFFF * (k - 1)) + 0xFFFF;
    }
  }

  lemma ResidueCycles(a: nat, k: nat)
    requires a > 0
    ensures Residue(a + 0xFFFF * k) == Residue(a)
  {
    ModCycles(a - 1, k);
  }

  /** The loop computes the residue: it depends on the sum only modulo 65535, and it is zero only
      for a zero sum. */
  lemma {:induction false} FoldIsResidue(sum: nat)
    ensures Fold(sum) == Residue(sum)
    decreases sum
  {
    if sum >= 0x1_0000 {
      var q, r := sum / 0x1_0000, sum % 0x1_0000;
      FoldIsResidue(r + q);
      assert sum == (r + q) + 0xFFFF * q;
      ResidueCycles(r + q, q);
    }
  }

  lemma SecondFold(once: nat)
    requires once <= 0x1_FFFE
    ensures (once + once / 0x1_0000) % 0x1_0000 == Residue(once)
  {
    if once >= 0x1_0000 {
      ResidueCycles(once - 0xFFFF, 1);
    }
  }

  /** Two folds are enough for every 32-bit accumulator. */
  lemma TwoStepIsFold(sum: nat)
    requires sum < 0x1_0000_0000
    ensures TwoStepFold(sum) == Fold(sum)
  {
    var q, r := sum / 0x1_0000, sum % 0x1_0000;
    SecondFold(r + q);
    FoldIsResidue(r + q);
    if q == 0 {
      FoldIsResidue(sum);
    }
  }

  /** The incremental update equals recomputation from scratch exactly when the words after the
      change are not all zero. */
  lemma UpdateEqualsRecomputation(sum: nat, oldWord: Word, newWord: Word)
    requires oldWord <= sum
    ensures UpdateChecksum16(FieldFor(sum), oldWord, newWord) == FieldFor(sum - oldWord + newWord)
       <==> sum - oldWord + newWord > 0
  {
    var folded := Fold(sum);
    var acc := folded + (0xFFFF - oldWord) + newWord;
    var after := sum - oldWord + newWord;
    TwoStepIsFold(acc);
    FoldIsResidue(sum);
    FoldIsResidue(acc);
    FoldIsResidue(after);
    if sum > 0 {
      assert acc > 0;
      var k := (sum - 1) / 0xFFFF;
      assert sum == folded + 0xFFFF * k;
      assert after + 0xFFFF == acc + 0xFFFF * k;
      ResidueCycles(acc, k);
      if after > 0 {
        assert after + 0xFFFF * 1 == acc + 0xFFFF * k;
        ResidueCycles(after, 1);
      }
    } else if newWord > 0 {
      assert acc == newWord + 0xFFFF * 1;
      ResidueCycles(newWord, 1);
    }
  }

  /** Replacing a word and putting it back restores every checksum except 0xFFFF, which comes
      back as the other representation of zero. */
  lemma UpdateThenUndo(check: Word, a: Word, b: Word)
    ensures UpdateChecksum16(UpdateChecksum16(check, a, b), b, a) == (if check == 0xFFFF then 0 else check)
  {
    TwoUpdates(check, a, b, b, a);
    if check < 0xFFFF {
      ResidueCycles(0xFFFF - check, 2);
    } else {
      ResidueCycles(0xFFFF, 1);
    }
  }

  /** The same for an address, two words at a time. */
  lemma UpdateAddressThenUndo(check: Word, a: Addr, b: Addr)
    requires check != 0xFFFF
    ensures UpdateChecksum32(UpdateChecksum32(check, a, b), b, a) == check
  {
    UpdatesCommute(UpdateChecksum16(check, High(a), High(b)), Low(a), Low(b), High(b), High(a));
    UpdateThenUndo(check, High(a), High(b));
    UpdateThenUndo(check, Low(a), Low(b));
  }

  /** Two updates of different words may be applied in either order. */
  lemma UpdatesCommute(check: Word, a: Word, b: Word, c: Word, d: Word)
    ensures UpdateChecksum16(UpdateChecksum16(check, a, b), c, d)
         == UpdateChecksum16(UpdateChecksum16(check, c, d), a, b)
  {
    TwoUpdates(check, a, b, c, d);
    TwoUpdates(check, c, d, a, b);
  }

  lemma TwoUpdates(check: Word, a: Word, b: Word, c: Word, d: Word)
    ensures UpdateChecksum16(UpdateChecksum16(check, a, b), c, d)
         == 0xFFFF - Residue((0xFFFF - check) + (0xFFFF - a) + b + (0xFFFF - c) + d)
  {
    var first := (0xFFFF - check) + (0xFFFF - a) + b;
    TwoStepIsFold(first);
    FoldIsResidue(first);
    var second := Residue(first) + (0xFFFF - c) + d;
    TwoStepIsFold(second);
    FoldIsResidue(second);
    if first > 0 && second > 0 {
      var k := (first - 1) / 0xFFFF;
      assert first == Residue(first) + 0xFFFF * k;
      assert first + (0xFFFF - c) + d == second + 0xFFFF * k;
      ResidueCycles(second, k);
    }
  }

  /** Words followed by the checksum they call for fold to all ones, which is what a receiver checks. */
  lemma FieldVerifies(sum: nat)
    ensures Fold(sum + FieldFor(sum)) == 0xFFFF
  {
    FoldIsResidue(sum);
    FoldIsResidue(sum + FieldFor(sum));
    if sum > 0 {
      var k := (sum - 1) / 0xFFFF;
      assert sum + FieldFor(sum) == 0xFFFF + 0xFFFF * k;
      ResidueCycles(0xFFFF, k);
    }
  }

  /** What a receiver checks: the words and the field add up to all ones. */
  predicate Verifies(sum: nat, check: Word) { Fold(sum + check) == 0xFFFF }

  lemma AllOnesIff(total: nat)
    ensures Fold(total) == 0xFFFF <==> total > 0 && total % 0xFFFF == 0
  {
    FoldIsResidue(total);
    if total > 0 {
      var q, r := (total - 1) / 0xFFFF, (total - 1) % 0xFFFF;
      assert total == (r + 1) + 0xFFFF * q;
      ModCycles(r + 1, q);
    }
  }

  /** The update moves the field by the difference of the words, modulo 65535. */
  lemma UpdateMoves(check: Word, oldWord: Word, newWord: Word) returns (k: nat)
    ensures UpdateChecksum16(check, oldWord, newWord) + newWord + 0xFFFF == check + oldWord + 0xFFFF * k
  {
    var acc := (0xFFFF - check) + (0xFFFF - oldWord) + newWord;
    TwoStepIsFold(acc);
    FoldIsResidue(acc);
    k := if acc == 0 then 0 else (acc - 1) / 0xFFFF;
  }

  /** A field that a receiver accepts, be it 0xFFFF in place of 0, is still accepted after the update, as
      long as the words after the change are not all zero. */
  lemma UpdateVerifies(sum: nat, check: Word, oldWord: Word, newWord: Word)
    requires oldWord <= sum && Verifies(sum, check) && sum - oldWord + newWord > 0
    ensures Verifies(sum - oldWord + newWord, UpdateChecksum16(check, oldWord, newWord))
  {
    var updated := UpdateChecksum16(check, oldWord, newWord);
    var k := UpdateMoves(check, oldWord, newWord);
    AllOnesIff(sum + check);
    AllOnesIff(sum - oldWord + newWord + updated);
    var m := (sum + check) / 0xFFFF;
    assert sum + check == 0xFFFF * m;
    assert sum - oldWord + newWord + updated == 0 + 0xFFFF * (m + k - 1);
    ModCycles(0, m + k - 1);
  }

  /** The from-scratch fold of the self-test, over the words of s[lo..hi]. */
  method FoldChecksum(s: array<Byte>, lo: nat, hi: nat) returns (check: Word)
    requires lo <= hi <= s.Length
    requires hi - lo < 0x1_0000
    ensures check == FieldFor(SumWords(s[..], lo, hi))
  {
    var sum: nat := 0;
    var i := lo;
    while i + 1 < hi
      invariant lo <= i <= hi
      invariant sum + SumWords(s[..], i, hi) == SumWords(s[..], lo, hi)
    {
      sum := sum + s[i] as nat * 256 + s[i + 1];
      i := i + 2;
    }
    if i < hi {
      sum := sum + s[i] as nat * 256;
    }
    SumBound(s[..], lo, hi);
    assert sum < 0x1_0000_0000;  // the 32-bit accumulator has not wrapped
    ghost var total := sum;
    while sum >= 0x1_0000
      invariant Fold(sum) == Fold(total)
      decreases sum
    {
      sum := sum % 0x1_0000 + sum / 0x1_0000;
    }
    check := 0xFFFF - sum;
  }
}
