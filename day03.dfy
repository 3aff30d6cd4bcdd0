/**
 * src/bin/day03.rs: the largest "joltage" of a bank of batteries, the largest number made
 * of `k` of the line's digits taken in order, found greedily: each digit is the leftmost
 * largest one in a window that leaves room for the digits still to come.
 */
module Day03 {
  import opened Errors
  import opened Decimal

  /** `Mode`: two batteries per bank or twelve. */
  datatype Mode = Two | Twelve

  /** `Mode::from`: "twelve" selects twelve; anything else, "two" included, selects two. */
  function ModeFromStr(s: string): (m: Mode)
    ensures m == Twelve <==> s == "twelve"
    ensures s == "two" ==> m == Two
  {
    if s == "two" then Two else if s == "twelve" then Twelve else Two
  }

  /** The number of digits a mode takes from each line. */
  function DigitsFor(mode: Mode): (k: nat)
    ensures mode == Two ==> k == 2
    ensures mode == Twelve ==> k == 12
  {
    match mode
    case Two => 2
    case Twelve => 12
  }

  /** `BatteryLine`: one line of the input, kept as it was read. */
  datatype BatteryLine = BatteryLine(line: string)

  // ---------------------------------------------------------------------
  // max_char and largest_digit

  /**
   * The index `max_by` keeps over `s[lo..hi]`, folding from the left: a later character
   * replaces the kept one only when it is strictly larger.
   */
  function FirstMaxIn(s: string, lo: nat, hi: nat): (p: nat)
    requires lo < hi <= |s|
    ensures lo <= p < hi
    decreases hi
  {
    if hi == lo + 1 then lo
    else
      var b := FirstMaxIn(s, lo, hi - 1);
      if s[b] >= s[hi - 1] then b else hi - 1
  }

  /** The kept character is the largest of the window, and no earlier one is as large. */
  lemma {:induction false} FirstMaxInIsFirstMax(s: string, lo: nat, hi: nat)
    requires lo < hi <= |s|
    ensures forall j :: lo <= j < hi ==> s[j] <= s[FirstMaxIn(s, lo, hi)]
    ensures forall j :: lo <= j < FirstMaxIn(s, lo, hi) ==> s[j] < s[FirstMaxIn(s, lo, hi)]
    decreases hi
  {
    if hi > lo + 1 {
      FirstMaxInIsFirstMax(s, lo, hi - 1);
    }
  }

  /** Folding over a slice is folding over the same window of the whole string. */
  lemma {:induction false} FirstMaxInSlice(s: string, lo: nat, hi: nat)
    requires lo < hi <= |s|
    ensures lo + FirstMaxIn(s[lo..hi], 0, hi - lo) == FirstMaxIn(s, lo, hi)
    decreases hi
  {
    var w := s[lo..hi];
    if hi > lo + 1 {
      FirstMaxInSlice(s, lo, hi - 1);
      var w' := s[lo..hi - 1];
      FirstMaxInPrefix(w, hi - lo - 1);
      assert w[..hi - lo - 1] == w';
    }
  }

  /** The fold over a prefix only looks at the prefix. */
  lemma {:induction false} FirstMaxInPrefix(w: string, n: nat)
    requires 1 <= n <= |w|
    ensures FirstMaxIn(w, 0, n) == FirstMaxIn(w[..n], 0, n)
    decreases n
  {
    if n > 1 {
      FirstMaxInPrefix(w, n - 1);
      FirstMaxInPrefix(w[..n], n - 1);
      assert w[..n][..n - 1] == w[..n - 1];
    }
  }

  /**
   * `max_char`: the index and the character of the first largest character; an empty string
   * has none and is a `ParseError`.
   */
  function MaxChar(s: string): (r: Result<(nat, char)>)
    ensures r.Err? <==> s == []
    ensures r.Err? ==> r.error == ParseError("max_char: " + s)
    ensures r.Ok? ==> r.value.0 < |s| && r.value.1 == s[r.value.0]
  {
    if s == [] then Err(ParseError("max_char: " + s))
    else
      var i := FirstMaxIn(s, 0, |s|);
      Ok((i, s[i]))
  }

  /** `max_char` finds the first occurrence of the largest character. */
  lemma {:induction false} MaxCharIsFirstMax(s: string)
    requires s != []
    ensures MaxChar(s).Ok?
    ensures forall j :: 0 <= j < |s| ==> s[j] <= MaxChar(s).value.1
    ensures forall j :: 0 <= j < MaxChar(s).value.0 ==> s[j] < MaxChar(s).value.1
  {
    FirstMaxInIsFirstMax(s, 0, |s|);
  }

  /**
   * `largest_digit`: the first largest character of `s[offset..maxOffset]`, as an index into
   * `s` and the value of the digit; an empty window or a largest character that is not a
   * decimal digit is a `ParseError`.
   */
  function LargestDigit(s: string, offset: nat, maxOffset: nat): (r: Result<(nat, nat)>)
    requires offset <= maxOffset <= |s|
    ensures r.Ok? ==> offset <= r.value.0 < maxOffset
  {
    match MaxChar(s[offset..maxOffset])
    case Err(e) => Err(e)
    case Ok((i, c)) =>
      if IsDigit(c) then Ok((offset + i, DigitValue(c)))
      else Err(ParseError("largest_digit: " + [c]))
  }

  /**
   * What `largest_digit` gives: an error for an empty window; for a non-empty one, the first
   * largest character of the window, at its index in `s`, when it is a digit, and otherwise
   * an error naming it.
   */
  lemma {:induction false} LargestDigitIs(s: string, offset: nat, maxOffset: nat)
    requires offset <= maxOffset <= |s|
    ensures offset == maxOffset ==> LargestDigit(s, offset, maxOffset) == Err(ParseError("max_char: "))
    ensures offset < maxOffset ==>
      var pos := FirstMaxIn(s, offset, maxOffset);
      && (IsDigit(s[pos]) ==> LargestDigit(s, offset, maxOffset) == Ok((pos, DigitValue(s[pos]))))
      && (!IsDigit(s[pos]) ==> LargestDigit(s, offset, maxOffset) == Err(ParseError("largest_digit: " + [s[pos]])))
  {
    if offset < maxOffset {
      FirstMaxInSlice(s, offset, maxOffset);
    } else {
      assert s[offset..maxOffset] == [];
    }
  }

  /** A digit `largest_digit` returns is the largest character of the window, and the first such. */
  lemma {:induction false} LargestDigitIsFirstMax(s: string, offset: nat, maxOffset: nat)
    requires offset <= maxOffset <= |s| && LargestDigit(s, offset, maxOffset).Ok?
    ensures var pos := LargestDigit(s, offset, maxOffset).value.0;
      && IsDigit(s[pos]) && LargestDigit(s, offset, maxOffset).value.1 == DigitValue(s[pos])
      && (forall j :: offset <= j < maxOffset ==> s[j] <= s[pos])
      && (forall j :: offset <= j < pos ==> s[j] < s[pos])
  {
    LargestDigitIs(s, offset, maxOffset);
    FirstMaxInIsFirstMax(s, offset, maxOffset);
  }

  // ---------------------------------------------------------------------
  // The greedy choice and what it is worth

  /**
   * The positions `largest_number` picks for `k` more digits from `offset` on: the first
   * largest character of the window that leaves room for the remaining `k - 1` digits.
   */
  function GreedyPicks(s: string, k: nat, offset: nat): (r: seq<nat>)
    requires offset + k <= |s|
    ensures |r| == k
    ensures forall i :: 0 <= i < k ==> offset <= r[i] < |s|
    decreases k
  {
    if k == 0 then []
    else
      var p := FirstMaxIn(s, offset, |s| - k + 1);
      [p] + GreedyPicks(s, k - 1, p + 1)
  }

  /** The characters at the greedy picks: what `largest_number` reads, one window at a time. */
  function GreedyDigits(s: string, k: nat, offset: nat): (r: string)
    requires offset + k <= |s|
    ensures |r| == k
    decreases k
  {
    if k == 0 then []
    else
      var p := FirstMaxIn(s, offset, |s| - k + 1);
      [s[p]] + GreedyDigits(s, k - 1, p + 1)
  }

  /** The greedy digits start with the first greedy pick's character, then continue from after it. */
  lemma {:induction false} GreedyDigitsStep(s: string, k: nat, offset: nat, p: nat)
    requires offset + k <= |s| && k >= 1 && p == FirstMaxIn(s, offset, |s| - k + 1)
    ensures GreedyDigits(s, k, offset)[0] == s[p]
    ensures GreedyDigits(s, k, offset)[1..] == GreedyDigits(s, k - 1, p + 1)
  {
    assert GreedyDigits(s, k, offset) == [s[p]] + GreedyDigits(s, k - 1, p + 1);
  }

  /** Indices that pick characters of `s`, in strictly increasing order, from `offset` on. */
  predicate IsChoice(s: string, idx: seq<nat>, offset: nat)
  {
    && (forall i :: 0 <= i < |idx| ==> offset <= idx[i] < |s|)
    && (forall i, j :: 0 <= i < j < |idx| ==> idx[i] < idx[j])
  }

  /** The greedy picks are a choice: strictly increasing positions from `offset` on. */
  lemma {:induction false} GreedyPicksAreChoice(s: string, k: nat, offset: nat)
    requires offset + k <= |s|
    ensures IsChoice(s, GreedyPicks(s, k, offset), offset)
    decreases k
  {
    if k > 0 {
      var g := GreedyPicks(s, k, offset);
      GreedyPicksAreChoice(s, k - 1, g[0] + 1);
      assert g[1..] == GreedyPicks(s, k - 1, g[0] + 1);
      forall i, j | 0 <= i < j < k ensures g[i] < g[j] {
        if i > 0 {
          assert g[i] == g[1..][i - 1] && g[j] == g[1..][j - 1];
        } else {
          assert g[j] == g[1..][j - 1];
        }
      }
    }
  }

  /** The characters at the chosen indices, in order. */
  function Selected(s: string, idx: seq<nat>): (t: string)
    requires forall i :: 0 <= i < |idx| ==> idx[i] < |s|
    ensures |t| == |idx|
    ensures AllDigits(s) ==> AllDigits(t)
  {
    if idx == [] then []
    else
      var rest := Selected(s, idx[1..]);
      assert forall i :: 1 <= i < |idx| ==> ([s[idx[0]]] + rest)[i] == rest[i - 1];
      [s[idx[0]]] + rest
  }

  /** The `i`-th selected character is the character at the `i`-th index. */
  lemma {:induction false} SelectedAt(s: string, idx: seq<nat>)
    requires forall i :: 0 <= i < |idx| ==> idx[i] < |s|
    ensures forall i :: 0 <= i < |idx| ==> Selected(s, idx)[i] == s[idx[i]]
  {
    if idx != [] {
      SelectedAt(s, idx[1..]);
      forall i | 1 <= i < |idx| ensures Selected(s, idx)[i] == s[idx[i]] {
        assert Selected(s, idx)[i] == Selected(s, idx[1..])[i - 1];
      }
    }
  }

  /** The index of the first character that is not a digit. */
  function FirstNonDigit(t: string): (i: nat)
    requires !AllDigits(t)
    ensures i < |t| && !IsDigit(t[i]) && AllDigits(t[..i])
  {
    if !IsDigit(t[0]) then 0
    else
      var i := 1 + FirstNonDigit(t[1..]);
      assert t[..i] == [t[0]] + t[1..][..i - 1];
      i
  }

  /**
   * The rest of `largest_number`'s loop with `k` digits still to pick, from `offset` on, having
   * accumulated `num`: each pass takes the first largest character of the window that leaves
   * room for the digits still to come, and stops at the first one that is not a digit
   * (`LargestDigitIs` shows this is what `largest_digit` returns on that window).
   */
  function GreedyFrom(s: string, k: nat, offset: nat, num: nat): (r: Result<nat>)
    requires offset + k <= |s|
    ensures r.Ok? ==> num * Pow10(k) <= r.value < (num + 1) * Pow10(k)
    decreases k
  {
    if k == 0 then Ok(num)
    else
      var p := FirstMaxIn(s, offset, |s| - k + 1);
      if IsDigit(s[p]) then
        AppendDigitBounds(num, DigitValue(s[p]), Pow10(k - 1));
        GreedyFrom(s, k - 1, p + 1, num * 10 + DigitValue(s[p]))
      else Err(ParseError("largest_digit: " + [s[p]]))
  }

  /** Appending a digit `d` to `num` keeps it among the numbers that start with `num`. */
  lemma {:induction false} AppendDigitBounds(num: nat, d: nat, p: nat)
    requires d < 10
    ensures num * (10 * p) <= (num * 10 + d) * p
    ensures (num * 10 + d + 1) * p <= (num + 1) * (10 * p)
  {
    assert (num * 10 + d) * p == num * (10 * p) + d * p;
    assert (num + 1) * (10 * p) == (num * 10 + d + 1) * p + (9 - d) * p;
  }

  /**
   * What `largest_number(k)` returns: a line shorter than `k` has an empty first window, an
   * error; otherwise the greedy loop from the start of the line.
   */
  function LargestNumberOf(s: string, k: nat): (r: Result<nat>)
    requires 1 <= k <= |s| + 1
    ensures |s| < k ==> r == Err(ParseError("max_char: "))
  {
    if |s| < k then Err(ParseError("max_char: ")) else GreedyFrom(s, k, 0, 0)
  }

  /** One pass of the loop, as `largest_digit` reports it: an error ends it, a digit extends `num`. */
  lemma {:induction false} GreedyFromLargestDigit(s: string, k: nat, offset: nat, maxOffset: nat, num: nat)
    requires offset + k <= |s| && k >= 1 && maxOffset == |s| - k + 1
    ensures var d := LargestDigit(s, offset, maxOffset);
      && (d.Err? ==> GreedyFrom(s, k, offset, num) == Err(d.error))
      && (d.Ok? ==> offset <= d.value.0 < maxOffset)
      && (d.Ok? ==> GreedyFrom(s, k, offset, num) == GreedyFrom(s, k - 1, d.value.0 + 1, num * 10 + d.value.1))
  {
    LargestDigitIs(s, offset, maxOffset);
  }

  // ---------------------------------------------------------------------
  // largest_number

  /**
   * `BatteryLine::largest_number`: pick `digits` digits greedily, one window at a time, and
   * accumulate them into a number. The source panics on `digits == 0` and on a line shorter
   * than `digits - 1` (an underflow of `usize`); a line of exactly `digits - 1` characters
   * gives an empty first window and an error. Every window the loop searches is non-empty.
   */
  method LargestNumber(battery: BatteryLine, digits: nat) returns (r: Result<nat>)
    requires 1 <= digits <= |battery.line| + 1
    ensures r == LargestNumberOf(battery.line, digits)
  {
    var s := battery.line;
    var num: nat := 0;
    var offset: nat := 0;
    var maxOffset: nat := |s| - (digits - 1);
    for i := 0 to digits
      invariant maxOffset == |s| - digits + 1 + i
      invariant LoopState(s, digits, i, offset, num)
    {
      var digit := LargestDigit(s, offset, maxOffset);
      LargestNumberStep(s, digits, i, offset, num);
      if digit.Err? {
        r := Err(digit.error);
        return;
      }
      num := num * 10 + digit.value.1;
      offset := digit.value.0 + 1;
      maxOffset := maxOffset + 1;
    }
    r := Ok(num);
  }

  /**
   * Where `largest_number`'s loop stands after `i` passes: either the line is too short and
   * nothing has happened yet, or the rest of the loop is the greedy choice from `offset` on.
   */
  predicate LoopState(s: string, digits: nat, i: nat, offset: nat, num: nat)
    requires 1 <= digits <= |s| + 1 && i <= digits
  {
    && (|s| < digits ==> i == 0 && offset == 0)
    && (|s| >= digits ==> offset + (digits - i) <= |s| && LargestNumberOf(s, digits) == GreedyFrom(s, digits - i, offset, num))
  }

  /** One pass of the loop: an error is the answer, a digit moves the loop on. */
  lemma {:induction false} LargestNumberStep(s: string, digits: nat, i: nat, offset: nat, num: nat)
    requires 1 <= digits <= |s| + 1 && i < digits && LoopState(s, digits, i, offset, num)
    ensures offset <= |s| - digits + 1 + i
    ensures var d := LargestDigit(s, offset, |s| - digits + 1 + i);
      && (d.Err? ==> LargestNumberOf(s, digits) == Err(d.error))
      && (d.Ok? ==> LoopState(s, digits, i + 1, d.value.0 + 1, num * 10 + d.value.1))
  {
    if |s| >= digits {
      GreedyFromLargestDigit(s, digits - i, offset, |s| - digits + 1 + i, num);
    } else {
      LargestDigitIs(s, offset, |s| - digits + 1 + i);
    }
  }

  // ---------------------------------------------------------------------
  // What the greedy loop computes

  /** After the digits picked so far, the next pick is not a digit: that is the first one. */
  lemma {:induction false} FirstNonDigitAt(t: string, i: nat)
    requires i < |t| && AllDigits(t[..i]) && !IsDigit(t[i])
    ensures !AllDigits(t) && FirstNonDigit(t) == i
    decreases i
  {
    if i > 0 {
      assert t[..i][0] == t[0];
      assert t[1..][..i - 1] == t[..i][1..];
      FirstNonDigitAt(t[1..], i - 1);
    }
  }

  /** The selection of a non-empty choice is its first character and the selection of the rest. */
  lemma {:induction false} SelectedTail(s: string, idx: seq<nat>)
    requires (forall i :: 0 <= i < |idx| ==> idx[i] < |s|) && |idx| >= 1
    ensures Selected(s, idx)[0] == s[idx[0]]
    ensures Selected(s, idx)[1..] == Selected(s, idx[1..])
  {
    assert Selected(s, idx) == [s[idx[0]]] + Selected(s, idx[1..]);
  }

  /** The greedy picks after the first one are the greedy picks from just after it. */
  lemma {:induction false} GreedyPicksTail(s: string, k: nat, offset: nat)
    requires offset + k <= |s| && k >= 1
    ensures GreedyPicks(s, k, offset)[0] == FirstMaxIn(s, offset, |s| - k + 1)
    ensures GreedyPicks(s, k - 1, GreedyPicks(s, k, offset)[0] + 1) == GreedyPicks(s, k, offset)[1..]
  {
  }

  /** A leading digit before digits: the first non-digit moves one place. */
  lemma {:induction false} FirstNonDigitAfterDigit(t: string)
    requires t != [] && IsDigit(t[0]) && !AllDigits(t[1..])
    ensures !AllDigits(t) && t[FirstNonDigit(t)] == t[1..][FirstNonDigit(t[1..])]
  {
    var f := FirstNonDigit(t[1..]);
    assert t[..f + 1] == [t[0]] + t[1..][..f];
    FirstNonDigitAt(t, f + 1);
  }

  /** Shifting an accumulated number past `k` more digits. */
  lemma {:induction false} ShiftAccumulated(num: nat, d: nat, p: nat, v: nat, q: nat, w: nat)
    requires q == 10 * p && w == d * p + v
    ensures (num * 10 + d) * p + v == num * q + w
  {
  }

  /**
   * What the loop makes of the characters it picks, in order, having accumulated `num`: each
   * digit is appended to the number, and the first character that is not a digit stops it.
   */
  function Spell(t: string, num: nat): (r: Result<nat>)
    decreases |t|
  {
    if t == [] then Ok(num)
    else if IsDigit(t[0]) then Spell(t[1..], num * 10 + DigitValue(t[0]))
    else Err(ParseError("largest_digit: " + [t[0]]))
  }

  /** A non-empty string is all digits when its head and its tail are. */
  lemma {:induction false} DigitsHeadTail(t: string)
    requires t != []
    ensures AllDigits(t) <==> IsDigit(t[0]) && AllDigits(t[1..])
  {
    assert forall i :: 1 <= i < |t| ==> t[i] == t[1..][i - 1];
  }

  /** Digits spell their decimal value after the accumulated prefix. */
  lemma {:induction false} SpellDigits(t: string, num: nat)
    requires AllDigits(t)
    ensures Spell(t, num) == Ok(num * Pow10(|t|) + DecimalValue(t))
    decreases |t|
  {
    if t != [] {
      var d := DigitValue(t[0]);
      DigitsHeadTail(t);
      SpellDigits(t[1..], num * 10 + d);
      LeadingDigitValue(t);
      ShiftAccumulated(num, d, Pow10(|t| - 1), DecimalValue(t[1..]), Pow10(|t|), DecimalValue(t));
    }
  }

  /** A string with a non-digit spells the error naming the first one. */
  lemma {:induction false} SpellStopsAtNonDigit(t: string, num: nat)
    requires !AllDigits(t)
    ensures Spell(t, num) == Err(ParseError("largest_digit: " + [t[FirstNonDigit(t)]]))
    decreases |t|
  {
    if IsDigit(t[0]) {
      DigitsHeadTail(t);
      SpellStopsAtNonDigit(t[1..], num * 10 + DigitValue(t[0]));
      FirstNonDigitAfterDigit(t);
    } else {
      FirstNonDigitAt(t, 0);
    }
  }

  /** One pass of the loop: the first greedy pick extends `num`, or stops the loop when it is not a digit. */
  lemma {:induction false} GreedyFromStep(s: string, k: nat, offset: nat, num: nat, p: nat)
    requires offset + k <= |s| && k >= 1 && p == FirstMaxIn(s, offset, |s| - k + 1)
    ensures IsDigit(s[p]) ==> GreedyFrom(s, k, offset, num) == GreedyFrom(s, k - 1, p + 1, num * 10 + DigitValue(s[p]))
    ensures !IsDigit(s[p]) ==> GreedyFrom(s, k, offset, num) == Err(ParseError("largest_digit: " + [s[p]]))
  {
  }

  /** Spelling a non-empty string: its first character extends `num`, or is the error. */
  lemma {:induction false} SpellStep(t: string, num: nat)
    requires t != []
    ensures IsDigit(t[0]) ==> Spell(t, num) == Spell(t[1..], num * 10 + DigitValue(t[0]))
    ensures !IsDigit(t[0]) ==> Spell(t, num) == Err(ParseError("largest_digit: " + [t[0]]))
  {
  }

  /** The rest of the loop spells the greedy digits. */
  lemma {:induction false} GreedyFromSpells(s: string, k: nat, offset: nat, num: nat)
    requires offset + k <= |s|
    ensures GreedyFrom(s, k, offset, num) == Spell(GreedyDigits(s, k, offset), num)
    decreases k
  {
    if k > 0 {
      var p := FirstMaxIn(s, offset, |s| - k + 1);
      var t := GreedyDigits(s, k, offset);
      GreedyDigitsStep(s, k, offset, p);
      GreedyFromStep(s, k, offset, num, p);
      SpellStep(t, num);
      if IsDigit(s[p]) {
        GreedyFromSpells(s, k - 1, p + 1, num * 10 + DigitValue(s[p]));
      }
    }
  }

  /** The greedy digits are the characters at the greedy picks. */
  lemma {:induction false} GreedyDigitsSelected(s: string, k: nat, offset: nat)
    requires offset + k <= |s|
    ensures GreedyDigits(s, k, offset) == Selected(s, GreedyPicks(s, k, offset))
    decreases k
  {
    if k > 0 {
      var g := GreedyPicks(s, k, offset);
      GreedyDigitsSelected(s, k - 1, g[0] + 1);
      GreedyPicksTail(s, k, offset);
      assert Selected(s, g) == [s[g[0]]] + Selected(s, g[1..]);
    }
  }

  /**
   * On a line at least `k` long, `largest_number(k)` gives the number the greedy picks spell
   * when they are all digits (a number below `10^k`), and otherwise the error naming the
   * first picked character that is not a digit.
   */
  lemma {:induction false} LargestNumberSpelled(s: string, k: nat)
    requires 1 <= k <= |s|
    ensures var picked := GreedyDigits(s, k, 0);
      && (AllDigits(picked) ==> LargestNumberOf(s, k) == Ok(DecimalValue(picked)))
      && (AllDigits(picked) ==> LargestNumberOf(s, k).value < Pow10(k))
      && (!AllDigits(picked) ==>
            LargestNumberOf(s, k) == Err(ParseError("largest_digit: " + [picked[FirstNonDigit(picked)]])))
  {
    GreedyFromSpells(s, k, 0, 0);
    if AllDigits(GreedyDigits(s, k, 0)) {
      SpellDigits(GreedyDigits(s, k, 0), 0);
    } else {
      SpellStopsAtNonDigit(GreedyDigits(s, k, 0), 0);
    }
  }

  /** A line of digits at least `k` long always gives a number. */
  lemma {:induction false} DigitLineSucceeds(s: string, k: nat)
    requires 1 <= k <= |s| && AllDigits(s)
    ensures LargestNumberOf(s, k).Ok?
  {
    GreedyDigitsAreDigits(s, k, 0);
    LargestNumberSpelled(s, k);
  }

  // ---------------------------------------------------------------------
  // The greedy choice is the best one

  /** Strictly increasing indices spread out: the `j`-th is at least `j` past the first. */
  lemma {:induction false} ChoiceSpread(s: string, idx: seq<nat>, offset: nat, j: nat)
    requires IsChoice(s, idx, offset) && j < |idx|
    ensures idx[j] >= idx[0] + j
  {
    if j > 0 {
      ChoiceSpread(s, idx, offset, j - 1);
    }
  }

  /** A value is its first digit's worth followed by the value of the rest. */
  lemma {:induction false} LeadingDigitValue(t: string)
    requires t != [] && AllDigits(t)
    ensures DecimalValue(t) == DigitValue(t[0]) * Pow10(|t| - 1) + DecimalValue(t[1..])
  {
    assert t == [t[0]] + t[1..];
    DecimalValueConcat([t[0]], t[1..]);
    assert DecimalValue([t[0]]) == DigitValue(t[0]) by {
      assert [t[0]][..0] == [];
    }
  }

  /** A smaller leading digit makes a smaller number of the same length. */
  lemma {:induction false} SmallerLeadingDigit(a: string, b: string)
    requires |a| == |b| && a != [] && AllDigits(a) && AllDigits(b)
    requires a[0] < b[0]
    ensures DecimalValue(a) < DecimalValue(b)
  {
    LeadingDigitValue(a);
    LeadingDigitValue(b);
    SmallerLeadingTerm(DigitValue(a[0]), DecimalValue(a[1..]), DigitValue(b[0]), DecimalValue(b[1..]), Pow10(|a| - 1));
  }

  /** A smaller leading term outweighs whatever follows it. */
  lemma {:induction false} SmallerLeadingTerm(da: nat, ra: nat, db: nat, rb: nat, p: nat)
    requires da < db && ra < p
    ensures da * p + ra < db * p + rb
  {
    MulLeMul(da + 1, db, p);
  }

  /** An equal leading digit compares as the rest does. */
  lemma {:induction false} EqualLeadingDigit(a: string, b: string)
    requires |a| == |b| && a != [] && AllDigits(a) && AllDigits(b)
    requires a[0] == b[0] && DecimalValue(a[1..]) <= DecimalValue(b[1..])
    ensures DecimalValue(a) <= DecimalValue(b)
  {
    LeadingDigitValue(a);
    LeadingDigitValue(b);
  }

  /**
   * The first chosen index lies in the first greedy window, so its character is no larger
   * than the greedy pick's, and an equal character sits at or after the greedy pick.
   */
  lemma {:induction false} FirstPickDominates(s: string, k: nat, offset: nat, idx: seq<nat>)
    requires offset + k <= |s| && k >= 1
    requires |idx| == k && IsChoice(s, idx, offset)
    ensures var p := FirstMaxIn(s, offset, |s| - k + 1);
      && s[idx[0]] <= s[p]
      && (s[idx[0]] == s[p] ==> idx[0] >= p)
  {
    FirstMaxInIsFirstMax(s, offset, |s| - k + 1);
    ChoiceSpread(s, idx, offset, k - 1);
  }

  /** Dropping the first index of a choice leaves a choice from just after it. */
  lemma {:induction false} ChoiceTail(s: string, idx: seq<nat>, offset: nat, from: nat)
    requires IsChoice(s, idx, offset) && |idx| >= 1 && from <= idx[0] + 1
    ensures IsChoice(s, idx[1..], from)
  {
    assert forall i :: 1 <= i < |idx| ==> idx[0] < idx[i];
  }

  /** The greedy digits of a line of digits are digits. */
  lemma {:induction false} GreedyDigitsAreDigits(s: string, k: nat, offset: nat)
    requires AllDigits(s) && offset + k <= |s|
    ensures AllDigits(GreedyDigits(s, k, offset))
  {
    GreedyDigitsSelected(s, k, offset);
  }

  /**
   * No choice of `k` digits from `offset` on, in order, makes a larger number than the
   * greedy digits.
   */
  lemma {:induction false} GreedyOptimalFrom(s: string, k: nat, offset: nat, idx: seq<nat>)
    requires AllDigits(s) && offset + k <= |s|
    requires |idx| == k && IsChoice(s, idx, offset)
    ensures AllDigits(GreedyDigits(s, k, offset))
      && DecimalValue(Selected(s, idx)) <= DecimalValue(GreedyDigits(s, k, offset))
    decreases k
  {
    GreedyDigitsAreDigits(s, k, offset);
    if k > 0 {
      var p := FirstMaxIn(s, offset, |s| - k + 1);
      FirstPickDominates(s, k, offset, idx);
      if s[idx[0]] < s[p] {
        SmallerFirstPick(s, k, offset, idx, p);
      } else {
        ChoiceTail(s, idx, offset, p + 1);
        GreedyOptimalFrom(s, k - 1, p + 1, idx[1..]);
        EqualFirstPick(s, k, offset, idx, p);
      }
    }
  }

  /** A choice whose first character is below the greedy pick's spells a smaller number. */
  lemma {:induction false} SmallerFirstPick(s: string, k: nat, offset: nat, idx: seq<nat>, p: nat)
    requires AllDigits(s) && offset + k <= |s| && k >= 1 && p == FirstMaxIn(s, offset, |s| - k + 1)
    requires |idx| == k && (forall i :: 0 <= i < |idx| ==> idx[i] < |s|) && s[idx[0]] < s[p]
    requires AllDigits(GreedyDigits(s, k, offset))
    ensures DecimalValue(Selected(s, idx)) < DecimalValue(GreedyDigits(s, k, offset))
  {
    SelectedTail(s, idx);
    GreedyDigitsStep(s, k, offset, p);
    SmallerLeadingDigit(Selected(s, idx), GreedyDigits(s, k, offset));
  }

  /**
   * A choice whose first character equals the greedy pick's is no larger than the greedy
   * digits when its rest is no larger than the greedy digits from after the pick.
   */
  lemma {:induction false} EqualFirstPick(s: string, k: nat, offset: nat, idx: seq<nat>, p: nat)
    requires AllDigits(s) && offset + k <= |s| && k >= 1 && p == FirstMaxIn(s, offset, |s| - k + 1)
    requires |idx| == k && (forall i :: 0 <= i < |idx| ==> idx[i] < |s|) && s[idx[0]] == s[p]
    requires AllDigits(GreedyDigits(s, k, offset)) && AllDigits(GreedyDigits(s, k - 1, p + 1))
    requires DecimalValue(Selected(s, idx[1..])) <= DecimalValue(GreedyDigits(s, k - 1, p + 1))
    ensures DecimalValue(Selected(s, idx)) <= DecimalValue(GreedyDigits(s, k, offset))
  {
    SelectedTail(s, idx);
    GreedyDigitsStep(s, k, offset, p);
    EqualLeadingDigit(Selected(s, idx), GreedyDigits(s, k, offset));
  }

  /**
   * On a line of digits, `largest_number(k)` is the largest number spelled by `k` of the
   * line's digits taken in order, and the greedy picks spell it.
   */
  lemma {:induction false} LargestNumberIsOptimal(s: string, k: nat, idx: seq<nat>)
    requires 1 <= k <= |s| && AllDigits(s)
    requires |idx| == k && IsChoice(s, idx, 0)
    ensures LargestNumberOf(s, k).Ok?
    ensures DecimalValue(Selected(s, idx)) <= LargestNumberOf(s, k).value
    ensures IsChoice(s, GreedyPicks(s, k, 0), 0)
    ensures LargestNumberOf(s, k).value == DecimalValue(Selected(s, GreedyPicks(s, k, 0)))
  {
    GreedyDigitsSelected(s, k, 0);
    GreedyOptimalFrom(s, k, 0, idx);
    GreedyPicksAreChoice(s, k, 0);
    LargestNumberSpelled(s, k);
  }

  /** "123456" with two digits picks the last two characters and gives 56. */
  lemma {:induction false} ExampleFixture()
    ensures GreedyPicks("123456", 2, 0) == [4, 5]
    ensures LargestNumberOf("123456", 2) == Ok(56)
  {
  }

  // ---------------------------------------------------------------------
  // calc_total_jolt

  /** The line gives a number when `k` digits are taken from it. */
  predicate LineGives(battery: BatteryLine, k: nat)
  {
    1 <= k <= |battery.line| + 1 && LargestNumberOf(battery.line, k).Ok?
  }

  /** Every line gives a number when `k` digits are taken from it. */
  predicate AllLinesGive(lines: seq<BatteryLine>, k: nat)
  {
    forall i :: 0 <= i < |lines| ==> LineGives(lines[i], k)
  }

  /** The sum of the lines' largest numbers. */
  function TotalJolt(lines: seq<BatteryLine>, k: nat): (r: nat)
    requires AllLinesGive(lines, k)
    ensures lines == [] ==> r == 0
    ensures forall i :: 0 <= i < |lines| ==> LargestNumberOf(lines[i].line, k).value <= r
  {
    if lines == [] then 0
    else
      var init := lines[..|lines| - 1];
      assert forall i :: 0 <= i < |init| ==> init[i] == lines[i];
      TotalJolt(init, k) + LargestNumberOf(lines[|lines| - 1].line, k).value
  }

  /**
   * `calc_total_jolt`: the sum over the lines of their largest number with two or twelve
   * digits, by mode. The source stops with a panic on a line that gives an error.
   */
  method CalcTotalJolt(lines: seq<BatteryLine>, mode: Mode) returns (total: nat)
    requires AllLinesGive(lines, DigitsFor(mode))
    ensures total == TotalJolt(lines, DigitsFor(mode))
  {
    var digits := DigitsFor(mode);
    total := 0;
    for i := 0 to |lines|
      invariant total == TotalJolt(lines[..i], digits)
    {
      assert LineGives(lines[i], digits);
      var jolt := LargestNumber(lines[i], digits);
      assert lines[..i + 1][..i] == lines[..i];
      total := total + jolt.value;
    }
    assert lines[..|lines|] == lines;
  }
}
