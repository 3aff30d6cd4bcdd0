/**
 * src/bin/day01.rs: the dial state of the safe, rotated instruction by instruction, counting
 * the times the dial points at 0 either after each rotation or also during the rotations.
 */
module Day01 {
  import opened Errors
  import opened Decimal
  import opened Dial

  /** `Mode`: count only landings on 0, or also the times 0 is passed during a rotation. */
  datatype Mode = CountZerosAfterRotation | CountZerosDuringRotation

  /** `Mode::from`: "during" selects counting during rotations; anything else counts after. */
  function ModeFromStr(s: string): (m: Mode)
    ensures m == CountZerosDuringRotation <==> s == "during"
    ensures s == "after" ==> m == CountZerosAfterRotation
  {
    if s == "after" then CountZerosAfterRotation
    else if s == "during" then CountZerosDuringRotation
    else CountZerosAfterRotation
  }

  /**
   * The count `apply_multiple` reports: the landings on 0, plus in the "during" mode the
   * times 0 is passed inside the rotations.
   */
  function ZeroCount(pos: nat, instructions: seq<Instruction>, mode: Mode): (r: nat)
    requires pos < Positions
    ensures r >= LandingsOnZero(pos, instructions)
    ensures mode == CountZerosAfterRotation ==> r <= |instructions|
  {
    match mode
    case CountZerosAfterRotation => LandingsOnZero(pos, instructions)
    case CountZerosDuringRotation => PassesOverZero(pos, instructions) + LandingsOnZero(pos, instructions)
  }

  /**
   * The "during" count is the number of clicks, over all rotations, after which the dial
   * points at 0, when every rotation moves the dial.
   */
  lemma {:induction false} DuringCountsEveryZeroClick(pos: nat, instructions: seq<Instruction>)
    requires pos < Positions && AllMove(instructions)
    ensures ZeroCount(pos, instructions, CountZerosDuringRotation) == AllZeroHits(pos, instructions)
  {
    PassesPlusLandings(pos, instructions);
  }

  // ---------------------------------------------------------------------
  // The arithmetic of `apply`

  /**
   * The left rotation lifts the position by 100 `j` times; each lift from a non-zero
   * position is one pass over 0, and that is the number of passes the clicks make.
   */
  lemma {:induction false} LeftPasses(pos: nat, count: nat, j: nat)
    requires pos < Positions
    requires pos + Positions * j >= count
    requires j == 0 || pos + Positions * (j - 1) < count
    ensures (if pos == 0 && j > 0 then j - 1 else j) == PassesDuring(pos, Left, count)
  {
    if count > 0 {
      ZeroHitsLeft(pos, count - 1);
      if pos == 0 {
        DivModUnique(count - 1, Positions, j - 1, count - 1 - Positions * (j - 1));
      } else {
        ModSmall(Positions - pos, Positions);
        DivModUnique(count - 1 + Positions - pos, Positions, j, count - 1 + Positions - pos - Positions * j);
      }
    }
  }

  /**
   * The right rotation as `apply` computes it once corrected: the hundreds reached, less
   * one when the rotation ends on 0 having reached a hundred at all.
   */
  lemma {:induction false} RightPasses(pos: nat, count: nat)
    requires pos < Positions
    ensures Turn(pos, Right, count) == (pos + count) % Positions
    ensures (pos + count) / Positions
          - (if (pos + count) % Positions == 0 && (pos + count) / Positions > 0 then 1 else 0)
         == PassesDuring(pos, Right, count)
  {
    TurnRight(pos, count);
    if count > 0 {
      ZeroHitsRight(pos, count - 1);
      QuotientStep(pos + count);
    } else {
      ModSmall(pos, Positions);
    }
  }

  /** The right branch of `apply` as written: it subtracts 1 whenever it ends on 0. */
  function RightZerosAsWritten(num: nat, count: nat): (z: int)
  {
    (num + count) / Positions - (if (num + count) % Positions == 0 then 1 else 0)
  }

  /**
   * The as-written right branch agrees with the clicks exactly when the rotation starts or
   * ends away from 0 at count 0, that is, unless it is `R0` at position 0.
   */
  lemma {:induction false} RightZerosAsWrittenAgrees(num: nat, count: nat)
    requires num < Positions
    ensures RightZerosAsWritten(num, count) == PassesDuring(num, Right, count) <==> num + count > 0
  {
    RightPasses(num, count);
    if num + count > 0 {
      DivBounds(num + count, Positions);
      if (num + count) / Positions == 0 {
        ModSmall(num + count, Positions);
      }
    }
  }

  /** `R0` at position 0: the as-written count is -1, an underflow of the `u32` counter. */
  lemma {:induction false} RightZerosAsWrittenUnderflow()
    ensures RightZerosAsWritten(0, 0) == -1
    ensures PassesDuring(0, Right, 0) == 0
  {
  }

  // ---------------------------------------------------------------------
  // The dial

  /** `State`: the position the dial points at. */
  class State {
    var num: nat

    /** The dial has the positions 0 to 99. */
    predicate Valid()
      reads this
    {
      num < Positions
    }

    /** `State::new`: the dial starts at 50. */
    constructor ()
      ensures num == 50 && Valid()
    {
      num := 50;
    }

    /**
     * `apply`: rotate the dial and return how many times it pointed at 0 during the rotation
     * (the final position not included). The mode only selects what verbose output shows.
     */
    method Apply(instruction: Instruction, mode: Mode) returns (zeros: nat)
      requires Valid()
      modifies this
      ensures Valid()
      ensures num == Execute(old(num), instruction)
      ensures zeros == PassesDuring(old(num), instruction.operation, instruction.argument)
    {
      var count := instruction.argument;
      ghost var start := num;
      zeros := 0;
      match instruction.operation
      case Left =>
        ghost var j: nat := 0;
        while count > num
          invariant num == start + Positions * j
          invariant zeros == if start == 0 && j > 0 then j - 1 else j
          invariant j == 0 || start + Positions * (j - 1) < count
          decreases count - num
        {
          if num != 0 {
            zeros := zeros + 1;
          }
          num := num + Positions;
          j := j + 1;
        }
        LeftByWholeTurns(start, count, j);
        LeftPasses(start, count, j);
        num := num - count;
      case Right =>
        num := num + count;
        zeros := Div(num, Positions);
        num := num % Positions;
        if num == 0 && zeros > 0 {
          zeros := zeros - 1;
        }
        RightPasses(start, count);
    }

    /**
     * `apply_multiple`: apply the instructions in order and report the landings on 0, plus in
     * the "during" mode the passes during the rotations.
     */
    method ApplyMultiple(instructions: seq<Instruction>, mode: Mode) returns (count: nat)
      requires Valid()
      modifies this
      ensures Valid()
      ensures num == Run(old(num), instructions)
      ensures count == ZeroCount(old(num), instructions, mode)
    {
      ghost var start := num;
      var zerosAfter, zerosDuring := 0, 0;
      for k := 0 to |instructions|
        invariant Valid()
        invariant num == Run(start, instructions[..k])
        invariant zerosAfter == LandingsOnZero(start, instructions[..k])
        invariant zerosDuring == PassesOverZero(start, instructions[..k])
      {
        var zeros := Apply(instructions[k], mode);
        zerosDuring := zerosDuring + zeros;
        if num == 0 {
          zerosAfter := zerosAfter + 1;
        }
        assert instructions[..k + 1][..k] == instructions[..k];
      }
      assert instructions[..|instructions|] == instructions;
      if mode == CountZerosDuringRotation {
        count := zerosDuring + zerosAfter;
      } else {
        count := zerosAfter;
      }
    }
  }

  // ---------------------------------------------------------------------
  // Closed forms and the unit-test cases

  /** The passes during a rotation, in closed form for either direction. */
  lemma {:induction false} PassesClosedForm(pos: nat, op: Operation, k: nat)
    requires pos < Positions
    ensures PassesDuring(pos, op, k)
         == if k == 0 then 0
            else if op == Right then (pos + k - 1) / Positions
            else (k - 1 + (Positions - pos) % Positions) / Positions
  {
    if k > 0 {
      if op == Right {
        ZeroHitsRight(pos, k - 1);
      } else {
        ZeroHitsLeft(pos, k - 1);
      }
    }
  }

  /** Where a rotation lands and how often it passes 0 on the way. */
  predicate RotationGives(pos: nat, op: Operation, k: nat, landing: nat, passes: nat)
    requires pos < Positions
  {
    Turn(pos, op, k) == landing && PassesDuring(pos, op, k) == passes
  }

  /** A rotation gives whatever the closed forms give. */
  lemma {:induction false} RotationByClosedForm(pos: nat, op: Operation, k: nat, landing: nat, passes: nat)
    requires pos < Positions
    requires landing == if op == Right then (pos + k) % Positions else (pos - k) % Positions
    requires passes
          == if k == 0 then 0
             else if op == Right then (pos + k - 1) / Positions
             else (k - 1 + (Positions - pos) % Positions) / Positions
    ensures RotationGives(pos, op, k, landing, passes)
  {
    TurnClosedForm(pos, op, k);
    PassesClosedForm(pos, op, k);
  }

  /** L68 from 50 lands on 82 and passes 0 once. */
  lemma {:induction false} LeftSixtyEightFixture()
    ensures RotationGives(50, Left, 68, 82, 1)
  {
    RotationByClosedForm(50, Left, 68, 82, 1);
  }

  /** R1000 from 50 lands on 50 again and passes 0 ten times. */
  lemma {:induction false} BigRotationFixture()
    ensures RotationGives(50, Right, 1000, 50, 10)
  {
    RotationByClosedForm(50, Right, 1000, 50, 10);
  }

  /** L5 from 5 lands on 0 without passing it; L5 from 0 lands on 95 without passing it. */
  lemma {:induction false} FiddlyLeftFixtures()
    ensures RotationGives(5, Left, 5, 0, 0)
    ensures RotationGives(0, Left, 5, 95, 0)
    ensures RotationGives(5, Left, 100, 5, 1)
  {
    RotationByClosedForm(5, Left, 5, 0, 0);
    RotationByClosedForm(0, Left, 5, 95, 0);
    RotationByClosedForm(5, Left, 100, 5, 1);
  }

  /** R5 from 95 lands on 0, R5 from 0 on 5, R100 from 5 on 5 having passed 0 once. */
  lemma {:induction false} FiddlyRightFixtures()
    ensures RotationGives(95, Right, 5, 0, 0)
    ensures RotationGives(0, Right, 5, 5, 0)
    ensures RotationGives(5, Right, 100, 5, 1)
  {
    RotationByClosedForm(95, Right, 5, 0, 0);
    RotationByClosedForm(0, Right, 5, 5, 0);
    RotationByClosedForm(5, Right, 100, 5, 1);
  }
}
