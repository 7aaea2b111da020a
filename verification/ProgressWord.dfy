/** The 64-bit progress word of Ex03/MapReduceFramework.cpp: two bits of stage, 31 bits of total and
    31 bits of count. */
module ProgressWord {
  import opened Arithmetic
  import opened Bits

  const STAGE_UNIT: nat := 0x4000_0000_0000_0000
  const TOTAL_UNIT: nat := 0x8000_0000
  const WORD_SIZE: nat := 0x1_0000_0000_0000_0000

  /** reset_counter's store: (stage << 62) | (total << 31). */
  function Reset(stage: nat, total: nat): nat {
    stage * STAGE_UNIT + total * TOTAL_UNIT
  }

  /** fetch_add, which wraps around like the atomic it models. */
  function FetchAdd(word: nat, n: nat): nat {
    (word + n) % WORD_SIZE
  }

  function StageOf(word: nat): nat {
    word / STAGE_UNIT
  }

  function TotalOf(word: nat): nat {
    word / TOTAL_UNIT % TOTAL_UNIT
  }

  function CountOf(word: nat): nat {
    word % TOTAL_UNIT
  }

  /** A word in which no field has spilt into the next. */
  ghost predicate IsWord(word: nat, stage: nat, total: nat, count: nat) {
    stage < 4 && count <= total < TOTAL_UNIT && word == Reset(stage, total) + count
  }

  /** The fields are read back as they were stored. */
  lemma Decode(word: nat, stage: nat, total: nat, count: nat)
    requires IsWord(word, stage, total, count)
    ensures StageOf(word) == stage && TotalOf(word) == total && CountOf(word) == count
  {
    assert word == (stage * TOTAL_UNIT + total) * TOTAL_UNIT + count;
    assert word / TOTAL_UNIT == stage * TOTAL_UNIT + total;
  }

  /** While the count stays within the total, adding to the word adds to the count alone. */
  lemma AddKeepsFields(word: nat, stage: nat, total: nat, count: nat, n: nat)
    requires IsWord(word, stage, total, count) && count + n <= total
    ensures IsWord(FetchAdd(word, n), stage, total, count + n)
    ensures FetchAdd(word, n) == word + n
  {
    assert word + n < WORD_SIZE;
  }

  lemma FieldUnits()
    ensures Pow2(31) == TOTAL_UNIT == 0x8000_0000 && Pow2(62) == STAGE_UNIT
  {
    assert Pow2(7) == 128;
    Pow2Add(7, 8);
    Pow2Add(15, 16);
    Pow2Add(31, 31);
    assert Pow2(8) == 256;
    Pow2Add(8, 8);
  }

  /** The store of reset_counter and the three getters, bit by bit: two bits of stage from bit 62, 31 bits of
      total from bit 31, 31 bits of count. */
  lemma FieldsAreBits(stage: nat, total: nat, word: nat)
    requires total < 0x8000_0000
    ensures Reset(stage, total) == Or(ShiftLeft(stage, 62), ShiftLeft(total, 31))
    ensures StageOf(word) == ShiftRight(word, 62)
    ensures TotalOf(word) == And(ShiftRight(word, 31), 0x7fff_ffff)
    ensures CountOf(word) == And(word, 0x7fff_ffff)
  {
    hide Pow2, Or, And, ShiftLeft, ShiftRight;
    FieldUnits();
    ShiftLeftIsTimes(total, 31);
    assert total * TOTAL_UNIT < STAGE_UNIT;
    OrIsJoin(stage, 62, total * TOTAL_UNIT);
    JoinIsProduct(stage, STAGE_UNIT, total * TOTAL_UNIT);
    ShiftRightIsQuot(word, 62);
    ShiftRightIsQuot(word, 31);
    QuotIsDivision(word, STAGE_UNIT);
    QuotIsDivision(word, TOTAL_UNIT);
    MaskIsRem(word / TOTAL_UNIT, 31);
    MaskIsRem(word, 31);
    QuotIsDivision(word / TOTAL_UNIT, TOTAL_UNIT);
  }

  /** The shifts and the bitwise or of the source are the sums used above. */
  lemma ShiftsAreSums(stage: bv64, total: bv64)
    requires stage < 4 && total < 0x8000_0000
    ensures (stage << 62) | (total << 31) == stage * 0x4000_0000_0000_0000 + total * 0x8000_0000
  {
  }

  /** Of two words with equal totals in equal stages, the greater has the higher stage, or the same stage
      and a count at least as high. */
  lemma WordsInOrder(w1: nat, s1: nat, t1: nat, c1: nat, w2: nat, s2: nat, t2: nat, c2: nat)
    requires IsWord(w1, s1, t1, c1) && IsWord(w2, s2, t2, c2) && (s1 == s2 ==> t1 == t2)
    requires w1 <= w2
    ensures s1 < s2 || (s1 == s2 && c1 <= c2)
  {
  }

  /** A higher stage, or a higher count in the same stage, is a greater word. */
  lemma WordOrder(w1: nat, s1: nat, t1: nat, c1: nat, w2: nat, s2: nat, t2: nat, c2: nat)
    requires IsWord(w1, s1, t1, c1) && IsWord(w2, s2, t2, c2)
    requires s1 < s2 || (s1 == s2 && t1 == t2 && c1 <= c2)
    ensures w1 <= w2
  {
  }
}
