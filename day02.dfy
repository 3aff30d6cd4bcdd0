/**
 * src/bin/day02.rs: ids whose decimal string is one block repeated are invalid;
 * ranges of ids are scanned and the invalid ones counted and summed.
 */
module Day02 {
  import opened Errors
  import opened Decimal

  /** An inclusive range of ids, `start-end` in the input. */
  datatype IdRange = IdRange(start: nat, end: nat)

  /** `Two`: only the split into two halves is checked; `Multiple`: every block count is. */
  datatype Mode = Two | Multiple

  /** `Mode::from`: "multiple" selects `Multiple`; "two" and every other string select `Two`. */
  function ModeFromStr(s: string): (m: Mode)
    ensures m == Multiple <==> s == "multiple"
    ensures s == "two" ==> m == Two
  {
    if s == "two" then Two else if s == "multiple" then Multiple else Two
  }

  // ---------------------------------------------------------------------
  // Specification: repeated blocks in the decimal string

  /** `w` written `f` times in a row. */
  function Repeat(w: string, f: nat): (s: string)
    ensures |s| == |w| * f
  {
    if f == 0 then [] else Repeat(w, f - 1) + w
  }

  /** `s` splits into `f` equal blocks that are all the same (each equal to the last one). */
  predicate IsRepetition(s: string, f: nat)
  {
    f >= 1 && |s| % f == 0 && s == Repeat(s[|s| - Div(|s|, f)..], f)
  }

  /** The largest block count a mode tries for an id with `digits` digits. */
  function MaxFreq(mode: Mode, digits: nat): nat
  {
    match mode
    case Two => 2
    case Multiple => digits
  }

  /** An id is invalid when its decimal string is `f` copies of one block for an `f` the mode tries. */
  predicate IsInvalidId(id: nat, mode: Mode)
  {
    exists f :: 2 <= f <= MaxFreq(mode, DigitCount(id)) && IsRepetition(DecimalString(id), f)
  }

  // ---------------------------------------------------------------------
  // The arithmetic the classifier does: blocks by repeated division

  /** `n` with its `k` lowest blocks of the given width (`pivot` = 10^width) divided away. */
  function Shift(n: nat, pivot: nat, k: nat): nat
    requires pivot > 0
    decreases k
  {
    if k == 0 then n else Shift(Div(n, pivot), pivot, k - 1)
  }

  lemma {:induction false} ShiftStep(n: nat, pivot: nat, k: nat)
    requires pivot > 0
    ensures Shift(n, pivot, k + 1) == Shift(n, pivot, k) / pivot
    decreases k
  {
    if k > 0 {
      ShiftStep(Div(n, pivot), pivot, k - 1);
    }
  }

  /** Blocks 1 .. freq-1 of width `period` (counted from the right) all equal block 0. */
  predicate BlocksEqual(id: nat, period: nat, freq: nat)
  {
    forall i :: 1 <= i < freq ==> Shift(id, Pow10(period), i) % Pow10(period) == id % Pow10(period)
  }

  lemma {:induction false} SplitEquality(a: string, b: string, c: string, d: string)
    requires |a| == |c|
    ensures a + b == c + d <==> a == c && b == d
  {
    if a + b == c + d {
      assert a == (a + b)[..|a|] && c == (c + d)[..|c|];
      assert b == (a + b)[|a|..] && d == (c + d)[|c|..];
    }
  }

  lemma {:induction false} MulPred(p: nat, f: nat)
    requires f > 0
    ensures p * (f - 1) + p == p * f
  {
  }

  /** Peeling one block: `f` copies of `w` below width `p * f` are the lowest block and `f - 1` copies above it. */
  lemma {:induction false} RenderedBlocksStep(n: nat, p: nat, f: nat, w: string)
    requires |w| == p && f > 0
    ensures Digits(n, p * f) == Repeat(w, f)
        <==> Digits(Div(n, Pow10(p)), p * (f - 1)) == Repeat(w, f - 1) && Digits(n, p) == w
  {
    var q := p * (f - 1);
    MulPred(p, f);
    DigitsSplit(n, q, p);
    assert Digits(n, p * f) == Digits(Div(n, Pow10(p)), q) + Digits(n, p);
    assert Repeat(w, f) == Repeat(w, f - 1) + w;
    SplitEquality(Digits(Div(n, Pow10(p)), q), Digits(n, p), Repeat(w, f - 1), w);
  }

  /** Each of the `f` lowest blocks of width `p` of `n` renders as `w`. */
  predicate AllBlocksRender(n: nat, p: nat, f: nat, w: string)
  {
    forall i :: 0 <= i < f ==> Digits(Shift(n, Pow10(p), i), p) == w
  }

  /** The blocks of `n` render as `w` exactly when its lowest block does and the blocks above it do. */
  lemma {:induction false} BlocksRenderStep(n: nat, p: nat, f: nat, w: string)
    requires f > 0
    ensures AllBlocksRender(n, p, f, w)
        <==> AllBlocksRender(Div(n, Pow10(p)), p, f - 1, w) && Digits(n, p) == w
  {
    var pivot := Pow10(p);
    var m := Div(n, pivot);
    if AllBlocksRender(n, p, f, w) {
      forall i | 0 <= i < f - 1
        ensures Digits(Shift(m, pivot, i), p) == w
      {
        assert Shift(n, pivot, i + 1) == Shift(m, pivot, i);
        assert Digits(Shift(n, pivot, i + 1), p) == w;
      }
      assert Shift(n, pivot, 0) == n;
    }
    if AllBlocksRender(m, p, f - 1, w) && Digits(n, p) == w {
      forall i | 0 <= i < f
        ensures Digits(Shift(n, pivot, i), p) == w
      {
        if i > 0 {
          assert Shift(n, pivot, i) == Shift(m, pivot, i - 1);
        }
      }
    }
  }

  /** When the `f * p` lowest digits are `f` copies of `w`, each of the `f` blocks renders as `w`. */
  lemma {:induction false} RepeatedBlocksRender(n: nat, p: nat, f: nat, w: string)
    requires |w| == p && Digits(n, p * f) == Repeat(w, f)
    ensures AllBlocksRender(n, p, f, w)
    decreases f
  {
    if f > 0 {
      RenderedBlocksStep(n, p, f, w);
      RepeatedBlocksRender(Div(n, Pow10(p)), p, f - 1, w);
      BlocksRenderStep(n, p, f, w);
    }
  }

  /** When each of the `f` blocks renders as `w`, the `f * p` lowest digits are `f` copies of `w`. */
  lemma {:induction false} BlocksRenderRepeated(n: nat, p: nat, f: nat, w: string)
    requires |w| == p && AllBlocksRender(n, p, f, w)
    ensures Digits(n, p * f) == Repeat(w, f)
    decreases f
  {
    if f > 0 {
      BlocksRenderStep(n, p, f, w);
      BlocksRenderRepeated(Div(n, Pow10(p)), p, f - 1, w);
      RenderedBlocksStep(n, p, f, w);
    } else {
      assert p * f == 0;
    }
  }

  /** The `f * p` lowest digits are `f` copies of `w` exactly when each of the `f` blocks renders as `w`. */
  lemma {:induction false} RenderedBlocks(n: nat, p: nat, f: nat, w: string)
    requires |w| == p
    ensures Digits(n, p * f) == Repeat(w, f) <==> AllBlocksRender(n, p, f, w)
  {
    if Digits(n, p * f) == Repeat(w, f) {
      RepeatedBlocksRender(n, p, f, w);
    }
    if AllBlocksRender(n, p, f, w) {
      BlocksRenderRepeated(n, p, f, w);
    }
  }

  /** All blocks render like the lowest block exactly when they all equal it numerically. */
  lemma {:induction false} BlocksRenderIffEqual(id: nat, p: nat, f: nat)
    requires f >= 1
    ensures AllBlocksRender(id, p, f, Digits(id, p)) <==> BlocksEqual(id, p, f)
  {
    var pivot := Pow10(p);
    forall i | 0 <= i < f
      ensures Digits(Shift(id, pivot, i), p) == Digits(id, p) <==> Shift(id, pivot, i) % pivot == id % pivot
    {
      DigitsEqualIff(Shift(id, pivot, i), id, p);
    }
    assert Shift(id, pivot, 0) == id;
  }

  /** The last `p` characters of the rendering of `id` with `p * f` digits are its lowest block. */
  lemma {:induction false} LastBlock(id: nat, p: nat, f: nat)
    requires f >= 1
    ensures Digits(id, p * f)[p * f - p..] == Digits(id, p)
  {
    var q := p * (f - 1);
    MulPred(p, f);
    DigitsSplit(id, q, p);
  }

  /** When `f` divides the digit count, the rendering of `id` is `f` blocks of width `p = d / f`. */
  lemma {:induction false} RenderingInBlocks(id: nat, f: nat, p: nat)
    requires f >= 1 && DigitCount(id) % f == 0 && p == Div(DigitCount(id), f)
    ensures DecimalString(id) == Digits(id, p * f)
  {
    DivExact(DigitCount(id), f);
  }

  /** A string of `f` blocks of width `p` is a repetition exactly when it is `f` copies of its last block. */
  lemma {:induction false} RepetitionOfLastBlock(s: string, p: nat, f: nat)
    requires f >= 1 && |s| == p * f
    ensures IsRepetition(s, f) <==> s == Repeat(s[p * f - p..], f)
  {
    DivModUnique(p * f, f, p, 0);
    assert Div(|s|, f) == p;
  }

  /**
   * The classifier's arithmetic agrees with the specification: for a block count `f` that
   * divides the digit count, "every block equals the lowest block" holds exactly when the
   * decimal string is `f` copies of one block.
   */
  lemma {:induction false} BlocksEqualIffRepetition(id: nat, f: nat)
    requires f >= 1 && DigitCount(id) % f == 0
    ensures IsRepetition(DecimalString(id), f) <==> BlocksEqual(id, Div(DigitCount(id), f), f)
  {
    var p := Div(DigitCount(id), f);
    var s := DecimalString(id);
    var w := Digits(id, p);
    RenderingInBlocks(id, f, p);
    LastBlock(id, p, f);
    RepetitionOfLastBlock(s, p, f);
    RenderedBlocks(id, p, f, w);
    BlocksRenderIffEqual(id, p, f);
  }

  /** Invalidity is the existence of a dividing block count whose blocks are all equal. */
  lemma {:induction false} InvalidIffSomeFreq(id: nat, mode: Mode)
    ensures IsInvalidId(id, mode) <==>
      exists f :: 2 <= f <= MaxFreq(mode, DigitCount(id)) && DigitCount(id) % f == 0
                  && BlocksEqual(id, Div(DigitCount(id), f), f)
  {
    var d := DigitCount(id);
    var m := MaxFreq(mode, d);
    var s := DecimalString(id);
    if IsInvalidId(id, mode) {
      var f :| 2 <= f <= m && IsRepetition(s, f);
      assert d % f == 0;
      BlocksEqualIffRepetition(id, f);
    }
    if exists f :: 2 <= f <= m && d % f == 0 && BlocksEqual(id, Div(d, f), f) {
      var f :| 2 <= f <= m && d % f == 0 && BlocksEqual(id, Div(d, f), f);
      BlocksEqualIffRepetition(id, f);
      assert IsRepetition(s, f);
    }
  }

  /** A block count the mode tries, dividing the digit count, with all blocks equal makes the id invalid. */
  lemma {:induction false} InvalidAtFreq(id: nat, mode: Mode, f: nat)
    requires 2 <= f <= MaxFreq(mode, DigitCount(id)) && DigitCount(id) % f == 0
    requires BlocksEqual(id, Div(DigitCount(id), f), f)
    ensures IsInvalidId(id, mode)
  {
    BlocksEqualIffRepetition(id, f);
  }

  // ---------------------------------------------------------------------
  // id_is_valid

  /**
   * `id_is_valid`: for each block count `freq` in 2..=max_freq that divides the digit count,
   * peel blocks off with `/ pivot` and compare each with the lowest one; stop at the first
   * block count whose blocks all agree.
   */
  method IdIsValid(id: nat, mode: Mode) returns (valid: bool)
    requires id >= 1
    ensures valid <==> !IsInvalidId(id, mode)
  {
    var digits := DigitCount(id);
    var maxFreq := match mode case Two => 2 case Multiple => digits;
    assert maxFreq == MaxFreq(mode, digits);
    valid := true;
    ghost var found := 0;
    for freq := 2 to maxFreq + 1
      invariant valid
      invariant forall f :: 2 <= f < freq && digits % f == 0 ==> !BlocksEqual(id, Div(digits, f), f)
    {
      if digits % freq != 0 {
        continue;
      }
      var validAtFreq := false;
      var period := Div(digits, freq);
      var pivot := Pow10(period);
      var right := id % pivot;
      var idPivoted := id;
      for i := 1 to freq
        invariant idPivoted == Shift(id, pivot, i - 1)
        invariant forall j :: 1 <= j < i ==> Shift(id, pivot, j) % pivot == right
        invariant !validAtFreq
      {
        ShiftStep(id, pivot, i - 1);
        idPivoted := Div(idPivoted, pivot);
        if idPivoted % pivot != right {
          validAtFreq := true;
          assert !BlocksEqual(id, period, freq) by {
            assert Shift(id, pivot, i) % pivot != right;
          }
          break;
        }
      }
      valid := valid && validAtFreq;
      if !valid {
        found := freq;
        break;
      }
    }
    if valid {
      InvalidIffSomeFreq(id, mode);
    } else {
      InvalidAtFreq(id, mode, found);
    }
  }

  // ---------------------------------------------------------------------
  // Properties of the classification

  lemma {:induction false} DivBelow(n: nat, pivot: nat)
    requires pivot > 0 && n < pivot * pivot
    ensures n / pivot < pivot
  {
    if n / pivot >= pivot {
      MulLeMul(pivot, n / pivot, pivot);
    }
  }

  /** For an even digit count, the two blocks agree exactly when the halves are equal. */
  lemma {:induction false} HalvesAsBlocks(id: nat, d: nat)
    requires d == DigitCount(id) && d % 2 == 0
    ensures BlocksEqual(id, Div(d, 2), 2) <==> id / Pow10(d / 2) == id % Pow10(d / 2)
  {
    var half := Div(d, 2);
    var pivot := Pow10(half);
    Pow10Add(half, half);
    assert half + half == d;
    DivBelow(id, pivot);
    ModSmall(id / pivot, pivot);
    assert Shift(id, pivot, 1) == id / pivot;
  }

  /** In `Two` mode an id is invalid exactly when it has an even digit count and its halves are equal. */
  lemma {:induction false} ModeTwoInvalidIff(id: nat)
    ensures IsInvalidId(id, Two) <==>
      var d := DigitCount(id);
      d % 2 == 0 && id / Pow10(d / 2) == id % Pow10(d / 2)
  {
    var d := DigitCount(id);
    InvalidIffSomeFreq(id, Two);
    assert MaxFreq(Two, d) == 2;
    if d % 2 == 0 {
      HalvesAsBlocks(id, d);
    }
  }

  /** Every id with an odd number of digits is valid in `Two` mode. */
  lemma {:induction false} OddDigitCountValidInTwo(id: nat)
    requires DigitCount(id) % 2 == 1
    ensures !IsInvalidId(id, Two)
  {
    ModeTwoInvalidIff(id);
  }

  /** In `Multiple` mode an id is invalid exactly when some block count 2..d dividing d has all blocks equal. */
  lemma {:induction false} ModeMultipleInvalidIff(id: nat)
    ensures IsInvalidId(id, Multiple) <==>
      var d := DigitCount(id);
      exists f :: 2 <= f <= d && d % f == 0 && BlocksEqual(id, Div(d, f), f)
  {
    InvalidIffSomeFreq(id, Multiple);
  }

  /** Single-digit ids are valid in both modes: no block count of at least two divides one. */
  lemma {:induction false} SingleDigitValid(id: nat, mode: Mode)
    requires 1 <= id <= 9
    ensures !IsInvalidId(id, mode)
  {
    assert DigitCount(id) == 1;
    InvalidIffSomeFreq(id, mode);
  }

  /** Whatever `Two` marks invalid, `Multiple` marks invalid too. */
  lemma {:induction false} TwoInvalidImpliesMultipleInvalid(id: nat)
    requires IsInvalidId(id, Two)
    ensures IsInvalidId(id, Multiple)
  {
    var f :| 2 <= f <= MaxFreq(Two, DigitCount(id)) && IsRepetition(DecimalString(id), f);
    assert f == 2 && |DecimalString(id)| % 2 == 0;
    assert 2 <= |DecimalString(id)|;
  }

  // ---------------------------------------------------------------------
  // Fixtures of the classification

  /** A two-digit id is invalid in either mode exactly when its two digits agree. */
  lemma {:induction false} TwoDigitInvalidIff(id: nat, mode: Mode)
    requires 10 <= id <= 99
    ensures IsInvalidId(id, mode) <==> id / 10 == id % 10
  {
    DigitCountIs(id, 2);
    assert MaxFreq(mode, 2) == MaxFreq(Two, 2);
    assert IsInvalidId(id, mode) == IsInvalidId(id, Two);
    ModeTwoInvalidIff(id);
    assert Div(2, 2) == 1 && Pow10(1) == 10;
  }

  /** A three-digit id is valid in `Two` mode: three is odd. */
  lemma {:induction false} ThreeDigitValidInTwo(id: nat)
    requires 100 <= id <= 999
    ensures !IsInvalidId(id, Two)
  {
    DigitCountIs(id, 3);
    OddDigitCountValidInTwo(id);
  }

  /** The ids the `Two` mode marks invalid: 55, 6464 and 123123 are invalid; 101 is valid. */
  lemma {:induction false} ModeTwoFixtures()
    ensures IsInvalidId(55, Two) && IsInvalidId(6464, Two) && IsInvalidId(123123, Two)
    ensures !IsInvalidId(101, Two)
  {
    DigitCountIs(55, 2);
    DigitCountIs(6464, 4);
    DigitCountIs(123123, 6);
    ModeTwoInvalidIff(55);
    ModeTwoInvalidIff(6464);
    ModeTwoInvalidIff(123123);
    ThreeDigitValidInTwo(101);
  }

  /** An id whose blocks of width `p` all agree over `f` blocks, with `p * f` digits, is invalid in `Multiple` mode. */
  lemma {:induction false} InvalidByBlocks(id: nat, p: nat, f: nat)
    requires 2 <= f && p >= 1 && Pow10(p * f - 1) <= id < Pow10(p * f)
    requires BlocksEqual(id, p, f)
    ensures IsInvalidId(id, Multiple)
  {
    var d := p * f;
    DigitCountIs(id, d);
    BlockCount(p, f, d);
    InvalidAtFreq(id, Multiple, f);
  }

  /** `p * f` digits split into `f` blocks of width `p`, and there are at least `f` of them. */
  lemma {:induction false} BlockCount(p: nat, f: nat, d: nat)
    requires f >= 1 && p >= 1 && d == p * f
    ensures f <= d && d % f == 0 && Div(d, f) == p
  {
    DivModUnique(d, f, p, 0);
  }

  /** 55, 6464 and 123123, invalid in `Two` mode, are invalid in `Multiple` mode too. */
  lemma {:induction false} MultipleFixturesFromTwo()
    ensures IsInvalidId(55, Multiple) && IsInvalidId(6464, Multiple) && IsInvalidId(123123, Multiple)
  {
    ModeTwoFixtures();
    TwoInvalidImpliesMultipleInvalid(55);
    TwoInvalidImpliesMultipleInvalid(6464);
    TwoInvalidImpliesMultipleInvalid(123123);
  }

  /** 123123123 is three copies of 123: invalid in `Multiple` mode. */
  lemma {:induction false} Fixture123123123()
    ensures IsInvalidId(123123123, Multiple)
  {
    Fixture123123123Blocks();
    InvalidByBlocks(123123123, 3, 3);
  }

  lemma {:induction false} Fixture123123123Blocks()
    ensures Pow10(8) <= 123123123 < Pow10(9)
    ensures BlocksEqual(123123123, 3, 3)
  {
    Fixture123123123Shifts();
    assert Pow10(3) == 1000;
  }

  lemma {:induction false} Fixture123123123Shifts()
    ensures Shift(123123123, 1000, 1) == 123123 && Shift(123123123, 1000, 2) == 123
  {
    ShiftStep(123123123, 1000, 1);
  }

  /** 1212121212 is five copies of 12: invalid in `Multiple` mode. */
  lemma {:induction false} Fixture1212121212()
    ensures IsInvalidId(1212121212, Multiple)
  {
    Fixture1212121212Blocks();
    InvalidByBlocks(1212121212, 2, 5);
  }

  lemma {:induction false} Fixture1212121212Blocks()
    ensures Pow10(9) <= 1212121212 < Pow10(10)
    ensures BlocksEqual(1212121212, 2, 5)
  {
    Fixture1212121212Shifts();
    assert Pow10(2) == 100;
  }

  lemma {:induction false} Fixture1212121212Shifts()
    ensures Shift(1212121212, 100, 1) == 12121212 && Shift(1212121212, 100, 2) == 121212
    ensures Shift(1212121212, 100, 3) == 1212 && Shift(1212121212, 100, 4) == 12
  {
    ShiftStep(1212121212, 100, 2);
    ShiftStep(1212121212, 100, 3);
  }

  /** 1111111 is seven copies of 1: invalid in `Multiple` mode. */
  lemma {:induction false} Fixture1111111()
    ensures IsInvalidId(1111111, Multiple)
  {
    Fixture1111111Blocks();
    InvalidByBlocks(1111111, 1, 7);
  }

  lemma {:induction false} Fixture1111111Blocks()
    ensures Pow10(6) <= 1111111 < Pow10(7)
    ensures BlocksEqual(1111111, 1, 7)
  {
    Fixture1111111Shifts();
    assert Pow10(1) == 10;
  }

  lemma {:induction false} Fixture1111111Shifts()
    ensures Shift(1111111, 10, 1) == 111111 && Shift(1111111, 10, 2) == 11111 && Shift(1111111, 10, 3) == 1111
    ensures Shift(1111111, 10, 4) == 111 && Shift(1111111, 10, 5) == 11 && Shift(1111111, 10, 6) == 1
  {
    ShiftStep(1111111, 10, 2);
    ShiftStep(1111111, 10, 3);
    ShiftStep(1111111, 10, 4);
    ShiftStep(1111111, 10, 5);
  }

  /** 101 is valid in `Multiple` mode: its only dividing block count, three, gives blocks 1, 0, 1. */
  lemma {:induction false} Fixture101()
    ensures !IsInvalidId(101, Multiple)
  {
    DigitCountIs(101, 3);
    InvalidIffSomeFreq(101, Multiple);
    assert Div(3, 3) == 1;
    assert !BlocksEqual(101, 1, 3) by {
      assert Shift(101, 10, 1) == 10;
    }
  }

  // ---------------------------------------------------------------------
  // invalid_ids_in_range, count_sum_invalid_ids_in_range

  /** The ids `lo ..= hi` that the mode marks invalid, in increasing order. */
  function InvalidIdsFrom(lo: nat, hi: nat, mode: Mode): (ids: seq<nat>)
    ensures forall id :: id in ids <==> lo <= id <= hi && IsInvalidId(id, mode)
    ensures forall i, j :: 0 <= i < j < |ids| ==> ids[i] < ids[j]
    ensures forall i :: 0 <= i < |ids| ==> lo <= ids[i]
    decreases hi + 1 - lo
  {
    if lo > hi then []
    else if IsInvalidId(lo, mode) then [lo] + InvalidIdsFrom(lo + 1, hi, mode)
    else InvalidIdsFrom(lo + 1, hi, mode)
  }

  /**
   * `invalid_ids_in_range`: the ids of the inclusive range that the mode marks invalid, in
   * increasing order. Id 0 is outside the model (`ilog10` of zero panics).
   */
  function InvalidIdsInRange(range: IdRange, mode: Mode): (ids: seq<nat>)
    requires range.start >= 1
    ensures forall id :: id in ids <==> range.start <= id <= range.end && IsInvalidId(id, mode)
    ensures forall i, j :: 0 <= i < j < |ids| ==> ids[i] < ids[j]
  {
    InvalidIdsFrom(range.start, range.end, mode)
  }

  function Sum(ids: seq<nat>): nat
  {
    if ids == [] then 0 else ids[0] + Sum(ids[1..])
  }

  /** The fold `(count, sum), id -> (count + 1, sum + id)` started from `acc`. */
  function FoldCountSum(ids: seq<nat>, acc: (nat, nat)): (r: (nat, nat))
    ensures r == (acc.0 + |ids|, acc.1 + Sum(ids))
  {
    if ids == [] then acc else FoldCountSum(ids[1..], (acc.0 + 1, acc.1 + ids[0]))
  }

  /** `count_sum_invalid_ids_in_range`: how many ids of the range are invalid, and their sum. */
  function CountSumInvalidIdsInRange(range: IdRange, mode: Mode): (r: (nat, nat))
    requires range.start >= 1
    ensures r.0 == |InvalidIdsInRange(range, mode)| && r.1 == Sum(InvalidIdsInRange(range, mode))
  {
    FoldCountSum(InvalidIdsInRange(range, mode), (0, 0))
  }

  /** A range that ends before it starts holds no ids: the count and the sum are zero. */
  lemma {:induction false} CountSumEmptyRange(range: IdRange, mode: Mode)
    requires 1 <= range.start && range.end < range.start
    ensures CountSumInvalidIdsInRange(range, mode) == (0, 0)
  {
    var ids := InvalidIdsInRange(range, mode);
    if ids != [] {
      HeadIsMember(ids);
      assert false;
    }
  }

  /** A one-id range counts that id once exactly when it is invalid. */
  lemma {:induction false} CountSumSingleId(id: nat, mode: Mode)
    requires id >= 1
    ensures CountSumInvalidIdsInRange(IdRange(id, id), mode) == if IsInvalidId(id, mode) then (1, id) else (0, 0)
  {
    var ids := InvalidIdsInRange(IdRange(id, id), mode);
    if IsInvalidId(id, mode) {
      IncreasingUnique(ids, [id]);
    } else {
      IncreasingUnique(ids, []);
    }
  }

  lemma {:induction false} HeadIsMember(a: seq<nat>)
    requires a != []
    ensures a[0] in a
  {
  }

  /** Two increasing sequences with the same members are equal. */
  lemma {:induction false} IncreasingUnique(a: seq<nat>, b: seq<nat>)
    requires forall i, j :: 0 <= i < j < |a| ==> a[i] < a[j]
    requires forall i, j :: 0 <= i < j < |b| ==> b[i] < b[j]
    requires forall x :: x in a <==> x in b
    ensures a == b
  {
    if a != [] && b != [] {
      assert a[0] == b[0] by {
        assert a[0] in b && b[0] in a;
      }
      forall x
        ensures x in a[1..] <==> x in b[1..]
      {
        if x in a[1..] {
          var k :| 0 <= k < |a| - 1 && a[1..][k] == x;
          assert a[0] < a[k + 1];
          assert a[k + 1] in a;
          assert x in b;
          var k' :| 0 <= k' < |b| && b[k'] == x;
          assert k' != 0;
          assert b[1..][k' - 1] == x;
        }
        if x in b[1..] {
          var k :| 0 <= k < |b| - 1 && b[1..][k] == x;
          assert b[0] < b[k + 1];
          assert b[k + 1] in b;
          assert x in a;
          var k' :| 0 <= k' < |a| && a[k'] == x;
          assert k' != 0;
          assert a[1..][k' - 1] == x;
        }
      }
      IncreasingUnique(a[1..], b[1..]);
      assert a == [a[0]] + a[1..] && b == [b[0]] + b[1..];
    } else if a != [] {
      HeadIsMember(a);
      assert false;
    } else if b != [] {
      HeadIsMember(b);
      assert false;
    }
  }

  /** The invalid ids of a range are any increasing list of exactly the ids it holds that are invalid. */
  lemma {:induction false} InvalidIdsAre(range: IdRange, mode: Mode, expected: seq<nat>)
    requires range.start >= 1
    requires forall i, j :: 0 <= i < j < |expected| ==> expected[i] < expected[j]
    requires forall id :: range.start <= id <= range.end ==> (IsInvalidId(id, mode) <==> id in expected)
    requires forall id :: id in expected ==> range.start <= id <= range.end
    ensures InvalidIdsInRange(range, mode) == expected
  {
    IncreasingUnique(InvalidIdsInRange(range, mode), expected);
  }

  /** The range 11-22 holds two ids invalid in `Two` mode, 11 and 22, which sum to 33. */
  lemma {:induction false} CountSumFixture11To22()
    ensures InvalidIdsInRange(IdRange(11, 22), Two) == [11, 22]
    ensures CountSumInvalidIdsInRange(IdRange(11, 22), Two) == (2, 33)
  {
    forall id | 11 <= id <= 22
      ensures IsInvalidId(id, Two) <==> id in [11, 22]
    {
      TwoDigitInvalidIff(id, Two);
      if id < 20 {
        assert id / 10 == 1 && id % 10 == id - 10;
      } else {
        assert id / 10 == 2 && id % 10 == id - 20;
      }
    }
    InvalidIdsAre(IdRange(11, 22), Two, [11, 22]);
    assert [11, 22][1..] == [22];
    assert Sum([11, 22]) == 33;
  }

  /** The range 95-115 holds one id invalid in `Two` mode, 99. */
  lemma {:induction false} CountSumFixture95To115()
    ensures InvalidIdsInRange(IdRange(95, 115), Two) == [99]
    ensures CountSumInvalidIdsInRange(IdRange(95, 115), Two) == (1, 99)
  {
    forall id | 95 <= id <= 115
      ensures IsInvalidId(id, Two) <==> id in [99]
    {
      if id <= 99 {
        TwoDigitInvalidIff(id, Two);
      } else {
        ThreeDigitValidInTwo(id);
      }
    }
    InvalidIdsAre(IdRange(95, 115), Two, [99]);
  }

  // ---------------------------------------------------------------------
  // calc_count_sum

  /** Every range starts at 1 or later. */
  predicate PositiveRanges(ranges: seq<IdRange>)
  {
    forall k :: 0 <= k < |ranges| ==> ranges[k].start >= 1
  }

  /** The invalid ids of every range, range after range. */
  function AllInvalidIds(ranges: seq<IdRange>, mode: Mode): (ids: seq<nat>)
    requires PositiveRanges(ranges)
  {
    if ranges == [] then []
    else AllInvalidIds(ranges[..|ranges| - 1], mode) + InvalidIdsInRange(ranges[|ranges| - 1], mode)
  }

  /** An id is listed exactly when some range contains it and the mode marks it invalid. */
  lemma {:induction false} AllInvalidIdsMembers(ranges: seq<IdRange>, mode: Mode, id: nat)
    requires PositiveRanges(ranges)
    ensures id in AllInvalidIds(ranges, mode) <==>
      IsInvalidId(id, mode) && exists k :: 0 <= k < |ranges| && ranges[k].start <= id <= ranges[k].end
  {
    if ranges != [] {
      var init := ranges[..|ranges| - 1];
      AllInvalidIdsMembers(init, mode, id);
      if exists k :: 0 <= k < |ranges| && ranges[k].start <= id <= ranges[k].end {
        var k :| 0 <= k < |ranges| && ranges[k].start <= id <= ranges[k].end;
        if k < |ranges| - 1 {
          assert init[k] == ranges[k];
        }
      }
      if exists k :: 0 <= k < |init| && init[k].start <= id <= init[k].end {
        var k :| 0 <= k < |init| && init[k].start <= id <= init[k].end;
        assert ranges[k] == init[k];
      }
    }
  }

  lemma {:induction false} SumConcat(a: seq<nat>, b: seq<nat>)
    ensures Sum(a + b) == Sum(a) + Sum(b)
  {
    if a != [] {
      assert (a + b)[1..] == a[1..] + b;
      SumConcat(a[1..], b);
    } else {
      assert a + b == b;
    }
  }

  /** Splitting the list of ranges splits the invalid ids the same way. */
  lemma {:induction false} AllInvalidIdsConcat(a: seq<IdRange>, b: seq<IdRange>, mode: Mode)
    requires PositiveRanges(a) && PositiveRanges(b)
    ensures PositiveRanges(a + b)
    ensures AllInvalidIds(a + b, mode) == AllInvalidIds(a, mode) + AllInvalidIds(b, mode)
  {
    PositiveRangesConcat(a, b);
    if b == [] {
      assert a + b == a;
    } else {
      var ab, b' := a + b, b[..|b| - 1];
      assert ab[..|ab| - 1] == a + b';
      assert ab[|ab| - 1] == b[|b| - 1];
      PositiveRangesConcat(b', []);
      assert b' + [] == b';
      AllInvalidIdsConcat(a, b', mode);
      var all, init, last := AllInvalidIds(a, mode), AllInvalidIds(b', mode), InvalidIdsInRange(b[|b| - 1], mode);
      assert AllInvalidIds(ab, mode) == (all + init) + last;
      assert AllInvalidIds(b, mode) == init + last;
      assert (all + init) + last == all + (init + last);
    }
  }

  lemma {:induction false} PositiveRangesConcat(a: seq<IdRange>, b: seq<IdRange>)
    requires PositiveRanges(a) && PositiveRanges(b)
    ensures PositiveRanges(a + b)
    ensures b != [] ==> PositiveRanges(b[..|b| - 1])
  {
    assert forall k :: 0 <= k < |a + b| ==> (a + b)[k] == if k < |a| then a[k] else b[k - |a|];
    if b != [] {
      assert forall k :: 0 <= k < |b| - 1 ==> b[..|b| - 1][k] == b[k];
    }
  }

  /**
   * `calc_count_sum` is additive: the totals over two lists of ranges put together are the
   * sums of the totals over each.
   */
  lemma {:induction false} CountSumConcat(a: seq<IdRange>, b: seq<IdRange>, mode: Mode)
    requires PositiveRanges(a) && PositiveRanges(b)
    ensures PositiveRanges(a + b)
    ensures |AllInvalidIds(a + b, mode)| == |AllInvalidIds(a, mode)| + |AllInvalidIds(b, mode)|
    ensures Sum(AllInvalidIds(a + b, mode)) == Sum(AllInvalidIds(a, mode)) + Sum(AllInvalidIds(b, mode))
  {
    AllInvalidIdsConcat(a, b, mode);
    SumConcat(AllInvalidIds(a, mode), AllInvalidIds(b, mode));
  }

  /** The totals over the first `k + 1` ranges are those over the first `k` plus those of range `k`. */
  lemma {:induction false} CountSumStep(ranges: seq<IdRange>, k: nat, mode: Mode)
    requires PositiveRanges(ranges) && k < |ranges|
    ensures PositiveRanges(ranges[..k]) && PositiveRanges(ranges[..k + 1]) && ranges[k].start >= 1
    ensures |AllInvalidIds(ranges[..k + 1], mode)|
         == |AllInvalidIds(ranges[..k], mode)| + |InvalidIdsInRange(ranges[k], mode)|
    ensures Sum(AllInvalidIds(ranges[..k + 1], mode))
         == Sum(AllInvalidIds(ranges[..k], mode)) + Sum(InvalidIdsInRange(ranges[k], mode))
  {
    var init, next := ranges[..k], ranges[..k + 1];
    assert forall i :: 0 <= i < |next| ==> next[i] == ranges[i];
    assert next[..k] == init && next[k] == ranges[k];
    var a, b := AllInvalidIds(init, mode), InvalidIdsInRange(ranges[k], mode);
    assert AllInvalidIds(next, mode) == a + b;
    SumConcat(a, b);
  }

  /**
   * `calc_count_sum`: add up the count and the sum of the invalid ids of each range, range by
   * range. The totals are the number of invalid ids over all the ranges and their sum; an
   * empty list gives `(0, 0)`.
   */
  method CalcCountSum(ranges: seq<IdRange>, mode: Mode) returns (totalCount: nat, totalSum: nat)
    requires PositiveRanges(ranges)
    ensures totalCount == |AllInvalidIds(ranges, mode)|
    ensures totalSum == Sum(AllInvalidIds(ranges, mode))
    ensures ranges == [] ==> totalCount == 0 && totalSum == 0
  {
    totalCount, totalSum := 0, 0;
    for k := 0 to |ranges|
      invariant totalCount == |AllInvalidIds(ranges[..k], mode)|
      invariant totalSum == Sum(AllInvalidIds(ranges[..k], mode))
    {
      var (count, sum) := CountSumInvalidIdsInRange(ranges[k], mode);
      CountSumStep(ranges, k, mode);
      totalCount := totalCount + count;
      totalSum := totalSum + sum;
    }
    assert ranges[..|ranges|] == ranges;
  }

  // ---------------------------------------------------------------------
  // parse_id_range, parse_id_range_sequence, and `Display` for `IdRange`

  /** `Display` for `IdRange`: `start-end`, both in decimal. */
  function FormatIdRange(range: IdRange): (r: string)
    ensures var k := DigitCount(range.start);
      && k < |r| && r[k] == '-'
      && AllDigits(r[..k]) && DecimalValue(r[..k]) == range.start
      && AllDigits(r[k + 1..]) && DecimalValue(r[k + 1..]) == range.end
  {
    var a, b := DecimalString(range.start), DecimalString(range.end);
    DashSplit(a, b);
    var r := a + "-" + b;
    assert |a| == DigitCount(range.start);
    assert r[..|a|] == a;
    assert r[|a| + 1..] == b;
    r
  }

  /**
   * `parse_id_range`: a `u64` in decimal, a `-`, another `u64`. `None` stands for nom's
   * error (no digits, a missing `-`, or a number too large for `u64`).
   */
  function ParseIdRange(s: string): (r: Option<(IdRange, string)>)
    ensures r.Some? ==> |r.value.1| < |s|
    ensures r.Some? ==> r.value.0.start <= U64_MAX && r.value.0.end <= U64_MAX
    ensures r.Some? <==>
      var n := LeadingDigits(s);
      && n > 0 && DecimalValue(s[..n]) <= U64_MAX && n < |s| && s[n] == '-'
      && LeadingDigits(s[n + 1..]) > 0 && DecimalValue(s[n + 1..][..LeadingDigits(s[n + 1..])]) <= U64_MAX
    ensures r.Some? ==>
      var n := LeadingDigits(s);
      && n < |s|
      && var m := LeadingDigits(s[n + 1..]);
      && var a, b := s[..n], s[n + 1..][..m];
      && s == a + "-" + b + r.value.1
      && a != [] && AllDigits(a) && b != [] && AllDigits(b)
      && r.value.0 == IdRange(DecimalValue(a), DecimalValue(b))
      && (r.value.1 == [] || !IsDigit(r.value.1[0]))
  {
    ParseIdRangeSpelled(s);
    match ParseUnsigned(s, U64_MAX)
    case None => None
    case Some((start, s1)) =>
      assert s1 == s[LeadingDigits(s)..];
      if s1 != [] && s1[0] == '-' then
        assert s1[1..] == s[LeadingDigits(s) + 1..];
        match ParseUnsigned(s1[1..], U64_MAX)
        case None => None
        case Some((end, s2)) => Some((IdRange(start, end), s2))
      else None
  }

  /** How the input of a successful `parse_id_range` splits: digits, `-`, digits, the rest. */
  lemma {:induction false} ParseIdRangeSpelled(s: string)
    ensures var n := LeadingDigits(s);
      n < |s| && s[n] == '-' ==>
      var t := s[n + 1..];
      var m := LeadingDigits(t);
      && s == s[..n] + "-" + t[..m] + t[m..]
      && (m < |t| ==> !IsDigit(t[m]))
  {
    var n := LeadingDigits(s);
    if n < |s| && s[n] == '-' {
      DashSplitAt(s, n, LeadingDigits(s[n + 1..]));
    }
  }

  /** A string with a `-` at `n` is what comes before it, the `-`, and what comes after, cut at `m`. */
  lemma {:induction false} DashSplitAt(s: string, n: nat, m: nat)
    requires n < |s| && s[n] == '-' && m <= |s| - n - 1
    ensures s == s[..n] + "-" + s[n + 1..][..m] + s[n + 1..][m..]
  {
    var t := s[n + 1..];
    assert s == s[..n] + [s[n]] + t;
    assert t == t[..m] + t[m..];
  }

  /** nom's `multispace0`: spaces, tabs, carriage returns and line feeds. */
  predicate IsMultispace(c: char)
  {
    c == ' ' || c == '\t' || c == '\r' || c == '\n'
  }

  /** Every character is whitespace that `multispace0` skips. */
  predicate AllMultispace(ws: string)
  {
    forall i :: 0 <= i < |ws| ==> IsMultispace(ws[i])
  }

  /** What is left after `multispace0`: the input with its leading whitespace, and only that, removed. */
  function SkipMultispace(s: string): (t: string)
    ensures |t| <= |s|
    ensures t == s[|s| - |t|..]
    ensures forall i :: 0 <= i < |s| - |t| ==> IsMultispace(s[i])
    ensures t == [] || !IsMultispace(t[0])
    ensures s != [] && !IsMultispace(s[0]) ==> t == s
    decreases |s|
  {
    if s != [] && IsMultispace(s[0]) then
      var t := SkipMultispace(s[1..]);
      SkipOneMore(s, t);
      t
    else s
  }

  /** Skipping one more whitespace character in front of what was skipped from the tail. */
  lemma {:induction false} SkipOneMore(s: string, t: string)
    requires s != [] && IsMultispace(s[0]) && |t| <= |s| - 1 && t == s[1..][|s| - 1 - |t|..]
    requires forall i :: 0 <= i < |s| - 1 - |t| ==> IsMultispace(s[1..][i])
    ensures t == s[|s| - |t|..]
    ensures forall i :: 0 <= i < |s| - |t| ==> IsMultispace(s[i])
  {
    forall i | 0 <= i < |s| - |t|
      ensures IsMultispace(s[i])
    {
      if i > 0 {
        assert s[i] == s[1..][i - 1];
      }
    }
  }

  /** `parse_id_range` consumes a prefix of its input: what it leaves is a suffix. */
  lemma {:induction false} ParseIdRangeLeavesSuffix(s: string)
    requires ParseIdRange(s).Some?
    ensures ParseIdRange(s).value.1 == s[|s| - |ParseIdRange(s).value.1|..]
  {
    var s1 := ParseUnsigned(s, U64_MAX).value.1;
    var s2 := ParseUnsigned(s1[1..], U64_MAX).value.1;
    assert s1 == s[|s| - |s1|..];
    assert s1[1..] == s[|s| - |s1| + 1..];
    assert s2 == s1[1..][|s1| - 1 - |s2|..];
  }

  /** `multispace0` in front of a digit skips exactly the whitespace before it. */
  lemma {:induction false} SkipWhitespaceBeforeDigit(ws: string, head: string)
    requires AllMultispace(ws) && head != [] && IsDigit(head[0])
    ensures SkipMultispace(ws + head) == head
  {
    var s := ws + head;
    var t := SkipMultispace(s);
    // The skipped prefix is all whitespace, so it stops at or before the digit ...
    assert s[|ws|] == head[0] && !IsMultispace(s[|ws|]);
    assert |s| - |t| <= |ws|;
    // ... and what is left starts with a non-whitespace character, so it stops no earlier.
    assert t != [] && t[0] == s[|s| - |t|];
    assert |s| - |t| == |ws|;
    assert t == s[|ws|..];
  }

  /**
   * The repetition inside `separated_list1`: while a `,` (and any whitespace after it) is
   * followed by a range, take it; when either fails, stop before the separator.
   */
  function MoreIdRanges(s: string): (r: (seq<IdRange>, string))
    ensures |r.1| <= |s|
    ensures r.0 == [] <==> r.1 == s
    decreases |s|
  {
    if s != [] && s[0] == ',' then
      match ParseIdRange(SkipMultispace(s[1..]))
      case None => ([], s)
      case Some((range, rest)) =>
        var (more, rest') := MoreIdRanges(rest);
        ([range] + more, rest')
    else ([], s)
  }

  /**
   * `parse_id_range_sequence`: `separated_list1(terminated(char(','), multispace0),
   * parse_id_range)`. Fails when the first range fails; otherwise it never fails and
   * returns at least one range.
   */
  function ParseIdRangeSequence(s: string): (r: Option<(seq<IdRange>, string)>)
    ensures r.Some? <==> ParseIdRange(s).Some?
    ensures r.Some? ==> |r.value.0| >= 1 && r.value.0[0] == ParseIdRange(s).value.0
  {
    match ParseIdRange(s)
    case None => None
    case Some((range, rest)) =>
      var (more, rest') := MoreIdRanges(rest);
      Some(([range] + more, rest'))
  }

  /** Both ends fit in a `u64`. */
  predicate FitsU64(range: IdRange)
  {
    range.start <= U64_MAX && range.end <= U64_MAX
  }

  /** What may follow a printed range without being read as part of it. */
  predicate EndsRange(rest: string)
  {
    rest == [] || !IsDigit(rest[0])
  }

  /** The two sides of a `-` can be read back from the joined text. */
  lemma {:induction false} DashSplit(a: string, b: string)
    ensures (a + "-" + b)[..|a|] == a && (a + "-" + b)[|a|] == '-' && (a + "-" + b)[|a| + 1..] == b
  {
  }

  /** How a separator and what follows it regroup, as the parser reads them from the left. */
  lemma {:induction false} SeparatedConcat(a: string, sep: char, b: string, rest: string)
    ensures a + [sep] + b + rest == a + ([sep] + b + rest)
    ensures ([sep] + b + rest)[0] == sep && ([sep] + b + rest)[1..] == b + rest
  {
  }

  /** The successful path through `parse_id_range`. */
  lemma {:induction false} ParseIdRangeOk(s: string, start: nat, s1: string, end: nat, s2: string)
    requires ParseUnsigned(s, U64_MAX) == Some((start, s1))
    requires s1 != [] && s1[0] == '-' && ParseUnsigned(s1[1..], U64_MAX) == Some((end, s2))
    ensures ParseIdRange(s) == Some((IdRange(start, end), s2))
  {
  }

  lemma {:induction false} ParseFormattedStart(range: IdRange, rest: string)
    requires FitsU64(range)
    ensures ParseUnsigned(FormatIdRange(range) + rest, U64_MAX)
         == Some((range.start, ['-'] + DecimalString(range.end) + rest))
  {
    SeparatedConcat(DecimalString(range.start), '-', DecimalString(range.end), rest);
    ParseUnsignedDecimalString(range.start, ['-'] + DecimalString(range.end) + rest, U64_MAX);
  }

  lemma {:induction false} ParseFormattedEnd(range: IdRange, rest: string)
    requires FitsU64(range) && EndsRange(rest)
    ensures ParseUnsigned(DecimalString(range.end) + rest, U64_MAX) == Some((range.end, rest))
  {
    ParseUnsignedDecimalString(range.end, rest, U64_MAX);
  }

  /** Parsing a printed range gives the range back and leaves what followed it. */
  lemma {:induction false} ParseFormatIdRange(range: IdRange, rest: string)
    requires FitsU64(range) && EndsRange(rest)
    ensures ParseIdRange(FormatIdRange(range) + rest) == Some((range, rest))
  {
    var b := DecimalString(range.end);
    var s1 := ['-'] + b + rest;
    SeparatedConcat(DecimalString(range.start), '-', b, rest);
    ParseFormattedStart(range, rest);
    ParseFormattedEnd(range, rest);
    ParseIdRangeOk(FormatIdRange(range) + rest, range.start, s1, range.end, rest);
  }

  /** The ranges printed one after the other, each comma followed by the whitespace `ws`. */
  function JoinIdRanges(ranges: seq<IdRange>, ws: string): string
    requires |ranges| >= 1
  {
    FormatIdRange(ranges[0]) + JoinTail(ranges[1..], ws)
  }

  /** Each range preceded by a comma and the whitespace `ws`. */
  function JoinTail(ranges: seq<IdRange>, ws: string): string
  {
    if ranges == [] then [] else "," + ws + FormatIdRange(ranges[0]) + JoinTail(ranges[1..], ws)
  }

  predicate AllFitU64(ranges: seq<IdRange>)
  {
    forall k :: 0 <= k < |ranges| ==> FitsU64(ranges[k])
  }

  /** A printed range starts with a digit. */
  lemma {:induction false} FormatStartsWithDigit(range: IdRange)
    ensures FormatIdRange(range) != [] && IsDigit(FormatIdRange(range)[0])
  {
    var a := DecimalString(range.start);
    assert FormatIdRange(range)[0] == a[0];
  }

  /** What follows a printed range in a comma-separated list ends the range. */
  lemma {:induction false} TailEndsRange(ranges: seq<IdRange>, ws: string, rest: string)
    requires rest == [] || (!IsDigit(rest[0]) && rest[0] != ',')
    ensures EndsRange(JoinTail(ranges, ws) + rest)
  {
    if ranges != [] {
      assert (JoinTail(ranges, ws) + rest)[0] == ',';
    }
  }

  /** One step of the repetition: a comma, then a range, then whatever the rest yields. */
  lemma {:induction false} MoreIdRangesOk(s: string, range: IdRange, rest: string)
    requires s != [] && s[0] == ','
    requires ParseIdRange(SkipMultispace(s[1..])) == Some((range, rest))
    ensures MoreIdRanges(s) == ([range] + MoreIdRanges(rest).0, MoreIdRanges(rest).1)
  {
  }

  /** A comma, whitespace and the pieces after it regroup as the parser reads them from the left. */
  lemma {:induction false} CommaConcat(ws: string, h: string, t: string, rest: string)
    ensures "," + ws + h + t + rest == "," + (ws + (h + (t + rest)))
    ensures ("," + (ws + (h + (t + rest))))[0] == ','
    ensures ("," + (ws + (h + (t + rest))))[1..] == ws + (h + (t + rest))
  {
  }

  /** A separated tail regroups as its comma followed by the whitespace, the first range and the rest. */
  lemma {:induction false} JoinTailCons(ranges: seq<IdRange>, ws: string, rest: string)
    requires ranges != []
    ensures JoinTail(ranges, ws) + rest == "," + (ws + (FormatIdRange(ranges[0]) + (JoinTail(ranges[1..], ws) + rest)))
  {
    CommaConcat(ws, FormatIdRange(ranges[0]), JoinTail(ranges[1..], ws), rest);
  }

  /** After the comma and the whitespace of a separated tail, the first range parses and the next comma follows. */
  lemma {:induction false} JoinTailHead(ranges: seq<IdRange>, ws: string, rest: string)
    requires ranges != [] && FitsU64(ranges[0]) && AllMultispace(ws)
    requires rest == [] || (!IsDigit(rest[0]) && rest[0] != ',')
    ensures ParseIdRange(SkipMultispace(ws + (FormatIdRange(ranges[0]) + (JoinTail(ranges[1..], ws) + rest))))
         == Some((ranges[0], JoinTail(ranges[1..], ws) + rest))
  {
    var head, tail := FormatIdRange(ranges[0]), JoinTail(ranges[1..], ws) + rest;
    FormatStartsWithDigit(ranges[0]);
    assert (head + tail)[0] == head[0];
    SkipWhitespaceBeforeDigit(ws, head + tail);
    TailEndsRange(ranges[1..], ws, rest);
    ParseFormatIdRange(ranges[0], tail);
  }

  /** One step of the repetition over a separated tail. */
  lemma {:induction false} JoinTailStep(ranges: seq<IdRange>, ws: string, rest: string)
    requires ranges != [] && FitsU64(ranges[0]) && AllMultispace(ws)
    requires rest == [] || (!IsDigit(rest[0]) && rest[0] != ',')
    ensures MoreIdRanges(JoinTail(ranges, ws) + rest)
         == ([ranges[0]] + MoreIdRanges(JoinTail(ranges[1..], ws) + rest).0, MoreIdRanges(JoinTail(ranges[1..], ws) + rest).1)
  {
    var head, tail := FormatIdRange(ranges[0]), JoinTail(ranges[1..], ws) + rest;
    var s := JoinTail(ranges, ws) + rest;
    JoinTailCons(ranges, ws, rest);
    CommaConcat(ws, head, JoinTail(ranges[1..], ws), rest);
    JoinTailHead(ranges, ws, rest);
    MoreIdRangesOk(s, ranges[0], tail);
  }

  /** A non-empty list is its head followed by its tail. */
  lemma {:induction false} ConsSplit(s: seq<IdRange>)
    requires s != []
    ensures s == [s[0]] + s[1..]
  {
  }

  /** With no ranges left, the repetition stops at once. */
  lemma {:induction false} JoinTailEmpty(ws: string, rest: string)
    requires rest == [] || (!IsDigit(rest[0]) && rest[0] != ',')
    ensures MoreIdRanges(JoinTail([], ws) + rest) == ([], rest)
  {
    assert JoinTail([], ws) + rest == rest;
  }

  lemma {:induction false} MoreIdRangesJoinTail(ranges: seq<IdRange>, ws: string, rest: string)
    requires AllFitU64(ranges) && AllMultispace(ws)
    requires rest == [] || (!IsDigit(rest[0]) && rest[0] != ',')
    ensures MoreIdRanges(JoinTail(ranges, ws) + rest) == (ranges, rest)
  {
    if ranges == [] {
      JoinTailEmpty(ws, rest);
    } else {
      assert AllFitU64(ranges[1..]);
      MoreIdRangesJoinTail(ranges[1..], ws, rest);
      JoinTailStep(ranges, ws, rest);
      ConsSplit(ranges);
    }
  }

  lemma {:induction false} ParseIdRangeSequenceOk(s: string, range: IdRange, rest: string)
    requires ParseIdRange(s) == Some((range, rest))
    ensures ParseIdRangeSequence(s) == Some(([range] + MoreIdRanges(rest).0, MoreIdRanges(rest).1))
  {
  }

  /**
   * Printing ranges separated by a comma and any run `ws` of whitespace and parsing them back
   * gives the same ranges; the parser stops where the ranges end.
   */
  lemma {:induction false} ParseJoinIdRanges(ranges: seq<IdRange>, ws: string, rest: string)
    requires |ranges| >= 1 && AllFitU64(ranges) && AllMultispace(ws)
    requires rest == [] || (!IsDigit(rest[0]) && rest[0] != ',')
    ensures ParseIdRangeSequence(JoinIdRanges(ranges, ws) + rest) == Some((ranges, rest))
  {
    var tail := JoinTail(ranges[1..], ws) + rest;
    assert AllFitU64(ranges[1..]);
    MoreIdRangesJoinTail(ranges[1..], ws, rest);
    AppendAssoc(FormatIdRange(ranges[0]), JoinTail(ranges[1..], ws), rest);
    TailEndsRange(ranges[1..], ws, rest);
    ParseFormatIdRange(ranges[0], tail);
    ParseIdRangeSequenceOk(JoinIdRanges(ranges, ws) + rest, ranges[0], tail);
    assert ranges == [ranges[0]] + ranges[1..];
  }

  /** A range written as two runs of digits around a `-` parses to their values. */
  lemma {:induction false} ParseIdRangeDigits(s: string, a: string, b: string, rest: string)
    requires AllDigits(a) && a != [] && DecimalValue(a) <= U64_MAX
    requires AllDigits(b) && b != [] && DecimalValue(b) <= U64_MAX
    requires EndsRange(rest)
    requires s == a + "-" + b + rest
    ensures ParseIdRange(s) == Some((IdRange(DecimalValue(a), DecimalValue(b)), rest))
  {
    var s1 := ['-'] + b + rest;
    SeparatedConcat(a, '-', b, rest);
    ParseUnsignedPrefix(a, s1, U64_MAX);
    ParseUnsignedPrefix(b, rest, U64_MAX);
    ParseIdRangeOk(s, DecimalValue(a), ['-'] + b + rest, DecimalValue(b), rest);
  }

  /** A comma, then a range written as two runs of digits, then `rest`: the repetition takes that range. */
  lemma {:induction false} CommaRangeDigits(s: string, a: string, b: string, rest: string)
    requires AllDigits(a) && a != [] && DecimalValue(a) <= U64_MAX
    requires AllDigits(b) && b != [] && DecimalValue(b) <= U64_MAX
    requires EndsRange(rest)
    requires s == "," + (a + "-" + b + rest)
    ensures MoreIdRanges(s)
         == ([IdRange(DecimalValue(a), DecimalValue(b))] + MoreIdRanges(rest).0, MoreIdRanges(rest).1)
  {
    var t := a + "-" + b + rest;
    assert s[1..] == t;
    assert t[0] == a[0];
    assert SkipMultispace(t) == t by {
      assert !IsMultispace(t[0]);
    }
    ParseIdRangeDigits(t, a, b, rest);
    MoreIdRangesOk(s, IdRange(DecimalValue(a), DecimalValue(b)), rest);
  }

  /** "123-456" parses to the range 123-456 with nothing left. */
  lemma {:induction false} ParseIdRangeFixture()
    ensures ParseIdRange("123-456") == Some((IdRange(123, 456), ""))
  {
    DecimalValue3('1', '2', '3'); DecimalValue3('4', '5', '6');
    ParseIdRangeDigits("123-456", "123", "456", "");
  }

  /** A comma and a last range written as two runs of digits: the repetition takes that range and stops. */
  lemma {:induction false} LastRangeDigits(s: string, a: string, b: string)
    requires U64Numeral(a) && U64Numeral(b)
    requires s == "," + (a + "-" + b + "")
    ensures EndsRange(s)
    ensures MoreIdRanges(s) == ([IdRange(DecimalValue(a), DecimalValue(b))], "")
  {
    CommaRangeDigits(s, a, b, "");
    assert MoreIdRanges("") == ([], "");
    assert [IdRange(DecimalValue(a), DecimalValue(b))] + [] == [IdRange(DecimalValue(a), DecimalValue(b))];
  }

  /** A comma and a range written as two runs of digits, before ranges that parse to `tail`. */
  lemma {:induction false} CommaRangeThen(s: string, a: string, b: string, rest: string, tail: seq<IdRange>)
    requires U64Numeral(a) && U64Numeral(b)
    requires EndsRange(rest) && MoreIdRanges(rest) == (tail, "")
    requires s == "," + (a + "-" + b + rest)
    ensures EndsRange(s)
    ensures MoreIdRanges(s) == ([IdRange(DecimalValue(a), DecimalValue(b))] + tail, "")
  {
    CommaRangeDigits(s, a, b, rest);
  }

  /** Three ranges written as runs of digits, separated by commas, parse to their values. */
  lemma {:induction false} ParseThreeRangesDigits(s: string, a1: string, b1: string, rest2: string, a2: string, b2: string,
                                                  rest3: string, a3: string, b3: string)
    requires U64Numeral(a1) && U64Numeral(b1) && U64Numeral(a2) && U64Numeral(b2)
    requires U64Numeral(a3) && U64Numeral(b3)
    requires s == a1 + "-" + b1 + rest2
    requires rest2 == "," + (a2 + "-" + b2 + rest3)
    requires rest3 == "," + (a3 + "-" + b3 + "")
    ensures ParseIdRangeSequence(s)
         == Some(([IdRange(DecimalValue(a1), DecimalValue(b1)), IdRange(DecimalValue(a2), DecimalValue(b2)),
                   IdRange(DecimalValue(a3), DecimalValue(b3))], ""))
  {
    var r1, r2, r3 := IdRange(DecimalValue(a1), DecimalValue(b1)), IdRange(DecimalValue(a2), DecimalValue(b2)),
                      IdRange(DecimalValue(a3), DecimalValue(b3));
    LastRangeDigits(rest3, a3, b3);
    CommaRangeThen(rest2, a2, b2, rest3, [r3]);
    FirstRangeThen(s, a1, b1, rest2, [r2] + [r3]);
    ThreeRanges(r1, r2, r3);
  }

  lemma {:induction false} ThreeRanges(r1: IdRange, r2: IdRange, r3: IdRange)
    ensures [r1] + ([r2] + [r3]) == [r1, r2, r3]
  {
    assert |[r1] + ([r2] + [r3])| == 3;
  }

  /** A first range written as two runs of digits, before ranges that parse to `tail`. */
  lemma {:induction false} FirstRangeThen(s: string, a: string, b: string, rest: string, tail: seq<IdRange>)
    requires U64Numeral(a) && U64Numeral(b)
    requires EndsRange(rest) && MoreIdRanges(rest) == (tail, "")
    requires s == a + "-" + b + rest
    ensures ParseIdRangeSequence(s) == Some(([IdRange(DecimalValue(a), DecimalValue(b))] + tail, ""))
  {
    ParseIdRangeDigits(s, a, b, rest);
    ParseIdRangeSequenceOk(s, IdRange(DecimalValue(a), DecimalValue(b)), rest);
  }

  /** A non-empty run of digits whose value fits in a `u64`. */
  predicate U64Numeral(t: string)
  {
    AllDigits(t) && t != [] && DecimalValue(t) <= U64_MAX
  }

  /** The six numbers of the input "11-22,95-115,998-1012". */
  lemma {:induction false} SequenceFixtureNumerals()
    ensures U64Numeral("11") && DecimalValue("11") == 11 && U64Numeral("22") && DecimalValue("22") == 22
    ensures U64Numeral("95") && DecimalValue("95") == 95 && U64Numeral("115") && DecimalValue("115") == 115
    ensures U64Numeral("998") && DecimalValue("998") == 998 && U64Numeral("1012") && DecimalValue("1012") == 1012
  {
    DecimalValue2('1', '1'); DecimalValue2('2', '2');
    DecimalValue2('9', '5'); DecimalValue3('1', '1', '5');
    DecimalValue3('9', '9', '8'); DecimalValue4('1', '0', '1', '2');
  }

  /** Where the input "11-22,95-115,998-1012" splits into its ranges. */
  lemma {:induction false} SequenceFixtureSplits()
    ensures "11-22,95-115,998-1012" == "11" + "-" + "22" + ",95-115,998-1012"
    ensures ",95-115,998-1012" == "," + ("95" + "-" + "115" + ",998-1012")
    ensures ",998-1012" == "," + ("998" + "-" + "1012" + "")
  {
  }

  /** "11-22,95-115,998-1012" parses to three ranges with nothing left. */
  lemma {:induction false} ParseIdRangeSequenceFixture()
    ensures ParseIdRangeSequence("11-22,95-115,998-1012")
         == Some(([IdRange(11, 22), IdRange(95, 115), IdRange(998, 1012)], ""))
  {
    SequenceFixtureNumerals();
    SequenceFixtureSplits();
    ParseThreeRangesDigits("11-22,95-115,998-1012", "11", "22", ",95-115,998-1012", "95", "115",
                           ",998-1012", "998", "1012");
  }
}
