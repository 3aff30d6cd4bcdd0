/**
 * src/main.rs: the first version of the dial, which only counts the rotations that leave
 * the dial pointing at 0. Its grammar (`parse_op`, `parse_count`, `parse_instruction`,
 * `parse`, `Operation::from_str`) is the one modelled in Dial.
 */
module MainDial {
  import opened Dial
  import Day01

  /** `State`: the position the dial points at; `main` starts it at 50. */
  class State {
    var num: nat

    /** The dial has the positions 0 to 99. */
    predicate Valid()
      reads this
    {
      num < Positions
    }

    /** `State { num }`: a dial at the given position. */
    constructor (start: nat)
      requires start < Positions
      ensures num == start && Valid()
    {
      num := start;
    }

    /** `apply`: rotate the dial; the position stays on the dial. */
    method Apply(instruction: Instruction)
      requires Valid()
      modifies this
      ensures Valid()
      ensures num == Execute(old(num), instruction)
    {
      var count := instruction.argument;
      match instruction.operation
      case Left =>
        ghost var start := num;
        ghost var j: nat := 0;
        while count > num
          invariant num == start + Positions * j
          invariant j == 0 || start + Positions * (j - 1) < count
          decreases count - num
        {
          num := num + Positions;
          j := j + 1;
        }
        LeftByWholeTurns(start, count, j);
        num := num - count;
      case Right =>
        TurnRight(num, count);
        num := (num + count) % Positions;
    }

    /** `apply_multiple`: apply the instructions in order, counting the landings on 0. */
    method ApplyMultiple(instructions: seq<Instruction>) returns (zeroCount: nat)
      requires Valid()
      modifies this
      ensures Valid()
      ensures num == Run(old(num), instructions)
      ensures zeroCount == LandingsOnZero(old(num), instructions)
      ensures zeroCount <= |instructions|
    {
      ghost var start := num;
      zeroCount := 0;
      for k := 0 to |instructions|
        invariant Valid()
        invariant num == Run(start, instructions[..k])
        invariant zeroCount == LandingsOnZero(start, instructions[..k])
      {
        Apply(instructions[k]);
        if num == 0 {
          zeroCount := zeroCount + 1;
        }
        assert instructions[..k + 1][..k] == instructions[..k];
      }
      assert instructions[..|instructions|] == instructions;
    }
  }

  /** `apply` on L68 from 50 leaves the dial at 82. */
  lemma {:induction false} LeftSixtyEightFixture()
    ensures Execute(50, Instruction(Left, 68)) == 82
  {
    Day01.LeftSixtyEightFixture();
  }

  /** The first version counts what the later one counts in its "after" mode. */
  lemma {:induction false} AgreesWithAfterMode(pos: nat, instructions: seq<Instruction>)
    requires pos < Positions
    ensures LandingsOnZero(pos, instructions) == Day01.ZeroCount(pos, instructions, Day01.CountZerosAfterRotation)
  {
  }
}
