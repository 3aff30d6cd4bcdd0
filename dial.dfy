/**
 * The safe dial shared by src/bin/day01.rs and src/main.rs: a dial with the positions
 * 0 to 99, rotated left or right by a number of clicks, and the one-instruction-per-line
 * grammar `L<count>` / `R<count>`.
 *
 * The reference semantics is click by click: `Turn` moves the dial one click at a time and
 * `ZeroHits` counts the clicks at which it points at 0. The solvers' arithmetic is proved
 * against it in Day01 and MainDial.
 */
module Dial {
  import opened Errors
  import opened Decimal

  /** The number of positions on the dial. */
  const Positions: nat := 100

  /** `Operation`: the direction of a rotation. */
  datatype Operation = Left | Right

  /** `Instruction`: a direction and a number of clicks (a `u32` in the source). */
  datatype Instruction = Instruction(operation: Operation, argument: nat)

  // ---------------------------------------------------------------------
  // Click-by-click reference semantics

  /** One click: left goes down and wraps from 0 to 99, right goes up and wraps from 99 to 0. */
  function Click(pos: nat, op: Operation): (r: nat)
    requires pos < Positions
    ensures r < Positions
    ensures op == Right ==> r == (pos + 1) % Positions
    ensures op == Left ==> r == (pos - 1) % Positions
  {
    match op
    case Left => if pos == 0 then Positions - 1 else pos - 1
    case Right => if pos == Positions - 1 then 0 else pos + 1
  }

  /** The position after `k` clicks in direction `op`. */
  function Turn(pos: nat, op: Operation, k: nat): (r: nat)
    requires pos < Positions
    ensures r < Positions
  {
    if k == 0 then pos else Click(Turn(pos, op, k - 1), op)
  }

  /** How many of the first `k` clicks leave the dial pointing at 0 (the last one included). */
  function ZeroHits(pos: nat, op: Operation, k: nat): (r: nat)
    requires pos < Positions
    ensures r <= k
  {
    if k == 0 then 0 else ZeroHits(pos, op, k - 1) + (if Turn(pos, op, k) == 0 then 1 else 0)
  }

  /**
   * How many times the dial points at 0 strictly during a rotation of `k` clicks: every click
   * but the last one, which is the landing position.
   */
  function PassesDuring(pos: nat, op: Operation, k: nat): (r: nat)
    requires pos < Positions
    ensures r + (if k > 0 && Turn(pos, op, k) == 0 then 1 else 0) == ZeroHits(pos, op, k)
  {
    if k == 0 then 0 else ZeroHits(pos, op, k - 1)
  }

  // ---------------------------------------------------------------------
  // Closed forms of the reference semantics

  /** The quotient by 100 goes up by one exactly at the multiples of 100. */
  lemma {:induction false} QuotientStep(m: int)
    ensures m / Positions == (m - 1) / Positions + (if m % Positions == 0 then 1 else 0)
  {
    var q, r := (m - 1) / Positions, (m - 1) % Positions;
    if r == Positions - 1 {
      DivModUnique(m, Positions, q + 1, 0);
    } else {
      DivModUnique(m, Positions, q, r + 1);
    }
  }

  /** `x` and `x + 100 * j` leave the same remainder. */
  lemma {:induction false} ModShift(x: int, j: int)
    ensures (x + Positions * j) % Positions == x % Positions
    ensures (x + Positions * j) / Positions == x / Positions + j
  {
    DivModUnique(x + Positions * j, Positions, x / Positions + j, x % Positions);
  }

  /** A multiple of 100 stays one when negated. */
  lemma {:induction false} ModNegate(x: int)
    ensures x % Positions == 0 <==> (-x) % Positions == 0
  {
    if x % Positions == 0 {
      DivModUnique(-x, Positions, -(x / Positions), 0);
    }
    if (-x) % Positions == 0 {
      DivModUnique(x, Positions, -((-x) / Positions), 0);
    }
  }

  /** Turning right by `k` adds `k` modulo 100. */
  lemma {:induction false} TurnRight(pos: nat, k: nat)
    requires pos < Positions
    ensures Turn(pos, Right, k) == (pos + k) % Positions
  {
    if k == 0 {
      ModSmall(pos, Positions);
    } else {
      TurnRight(pos, k - 1);
      var p := (pos + k - 1) % Positions;
      ModShift(p + 1, (pos + k - 1) / Positions);
    }
  }

  /** Turning left by `k` subtracts `k` modulo 100. */
  lemma {:induction false} TurnLeft(pos: nat, k: nat)
    requires pos < Positions
    ensures Turn(pos, Left, k) == (pos - k) % Positions
  {
    if k == 0 {
      ModSmall(pos, Positions);
    } else {
      TurnLeft(pos, k - 1);
      var p := (pos - k + 1) % Positions;
      ModShift(p - 1, (pos - k + 1) / Positions);
    }
  }

  /** Turning right passes 0 once per full hundred reached. */
  lemma {:induction false} ZeroHitsRight(pos: nat, k: nat)
    requires pos < Positions
    ensures ZeroHits(pos, Right, k) == (pos + k) / Positions
  {
    if k == 0 {
      ModSmall(pos, Positions);
    } else {
      ZeroHitsRight(pos, k - 1);
      TurnRight(pos, k);
      QuotientStep(pos + k);
    }
  }

  /** The `k`-th left click lands on 0 exactly when `k + c` is a multiple of 100. */
  lemma {:induction false} LeftLandsOnZero(pos: nat, k: nat, c: nat)
    requires pos < Positions && c == (Positions - pos) % Positions
    ensures Turn(pos, Left, k) == 0 <==> (k + c) % Positions == 0
  {
    TurnLeft(pos, k);
    ModNegate(pos - k);
    assert -(pos - k) == k - pos;
    assert Turn(pos, Left, k) == 0 <==> (k - pos) % Positions == 0;
    if pos == 0 {
      assert c == 0;
    } else {
      ModSmall(Positions - pos, Positions);
      ModShift(k - pos, 1);
      assert k + c == k - pos + Positions * 1;
    }
  }

  /**
   * Turning left from `pos` reaches 0 after `pos` clicks (after 100 from 0) and then every
   * 100 clicks.
   */
  lemma {:induction false} ZeroHitsLeft(pos: nat, k: nat)
    requires pos < Positions
    ensures ZeroHits(pos, Left, k) == (k + (Positions - pos) % Positions) / Positions
  {
    var c := (Positions - pos) % Positions;
    if k == 0 {
      ModSmall(c, Positions);
    } else {
      ZeroHitsLeft(pos, k - 1);
      LeftLandsOnZero(pos, k, c);
      QuotientStep(k + c);
    }
  }

  /** The position after a rotation of `k` clicks, in closed form for either direction. */
  lemma {:induction false} TurnClosedForm(pos: nat, op: Operation, k: nat)
    requires pos < Positions
    ensures Turn(pos, op, k) == if op == Right then (pos + k) % Positions else (pos - k) % Positions
  {
    if op == Right {
      TurnRight(pos, k);
    } else {
      TurnLeft(pos, k);
    }
  }

  /**
   * Left rotation done by lifting the position by whole turns of 100 until it is at least
   * the count, then subtracting the count: this lands where the clicks land.
   */
  lemma {:induction false} LeftByWholeTurns(pos: nat, count: nat, j: nat)
    requires pos < Positions
    requires pos + Positions * j >= count
    requires j == 0 || pos + Positions * (j - 1) < count
    ensures pos + Positions * j - count < Positions
    ensures pos + Positions * j - count == Turn(pos, Left, count)
  {
    TurnLeft(pos, count);
    DivModUnique(pos - count, Positions, -(j as int), pos + Positions * j - count);
  }

  // ---------------------------------------------------------------------
  // Sequences of instructions

  /** The position after one instruction. */
  function Execute(pos: nat, instruction: Instruction): (r: nat)
    requires pos < Positions
    ensures r < Positions
  {
    Turn(pos, instruction.operation, instruction.argument)
  }

  /** The position after the instructions, one after the other. */
  function Run(pos: nat, instructions: seq<Instruction>): (r: nat)
    requires pos < Positions
    ensures r < Positions
  {
    if instructions == [] then pos
    else Execute(Run(pos, instructions[..|instructions| - 1]), instructions[|instructions| - 1])
  }

  /** How many instructions leave the dial pointing at 0. */
  function LandingsOnZero(pos: nat, instructions: seq<Instruction>): (r: nat)
    requires pos < Positions
    ensures r <= |instructions|
    ensures instructions == [] ==> r == 0
  {
    if instructions == [] then 0
    else
      LandingsOnZero(pos, instructions[..|instructions| - 1])
      + (if Run(pos, instructions) == 0 then 1 else 0)
  }

  /** How many times the dial points at 0 strictly during the instructions' rotations. */
  function PassesOverZero(pos: nat, instructions: seq<Instruction>): (r: nat)
    requires pos < Positions
  {
    if instructions == [] then 0
    else
      var last := instructions[|instructions| - 1];
      PassesOverZero(pos, instructions[..|instructions| - 1])
      + PassesDuring(Run(pos, instructions[..|instructions| - 1]), last.operation, last.argument)
  }

  /** Every click of every instruction at which the dial points at 0. */
  function AllZeroHits(pos: nat, instructions: seq<Instruction>): (r: nat)
    requires pos < Positions
  {
    if instructions == [] then 0
    else
      var last := instructions[|instructions| - 1];
      AllZeroHits(pos, instructions[..|instructions| - 1])
      + ZeroHits(Run(pos, instructions[..|instructions| - 1]), last.operation, last.argument)
  }

  /** Every instruction moves the dial by at least one click. */
  predicate AllMove(instructions: seq<Instruction>)
  {
    forall i :: 0 <= i < |instructions| ==> instructions[i].argument >= 1
  }

  /**
   * When every instruction moves the dial, the passes during the rotations plus the landings
   * are exactly the clicks at which the dial points at 0.
   */
  lemma {:induction false} PassesPlusLandings(pos: nat, instructions: seq<Instruction>)
    requires pos < Positions && AllMove(instructions)
    ensures PassesOverZero(pos, instructions) + LandingsOnZero(pos, instructions)
         == AllZeroHits(pos, instructions)
  {
    if instructions != [] {
      var init := instructions[..|instructions| - 1];
      assert AllMove(init) by {
        forall i | 0 <= i < |init| ensures init[i].argument >= 1 {
          assert init[i] == instructions[i];
        }
      }
      PassesPlusLandings(pos, init);
      assert instructions[|instructions| - 1].argument >= 1;
    }
  }

  // ---------------------------------------------------------------------
  // The instruction grammar

  /** `Operation::from_str`: exactly "L" and "R" name an operation. */
  function OperationFromStr(s: string): (r: Option<Operation>)
    ensures r == Some(Left) <==> s == "L"
    ensures r == Some(Right) <==> s == "R"
    ensures r.None? <==> s != "L" && s != "R"
  {
    if s == "L" then Some(Left) else if s == "R" then Some(Right) else None
  }

  /** The letter that names an operation in the grammar and in `Display`. */
  function OpSymbol(op: Operation): (r: string)
    ensures |r| == 1
    ensures r[0] == 'L' <==> op == Left
    ensures r[0] == 'R' <==> op == Right
  {
    match op
    case Left => "L"
    case Right => "R"
  }

  /** `OpSymbol` and `OperationFromStr` are inverse. */
  lemma {:induction false} OpSymbolRoundTrip(op: Operation)
    ensures OperationFromStr(OpSymbol(op)) == Some(op)
    ensures |OpSymbol(op)| == 1
  {
  }

  /** `parse_op`: the tag `L` or the tag `R` at the start of the input. */
  function ParseOp(s: string): (r: Option<(Operation, string)>)
    ensures r.Some? <==> s != [] && (s[0] == 'L' || s[0] == 'R')
    ensures r.Some? ==> r.value.1 == s[1..] && [s[0]] == OpSymbol(r.value.0)
  {
    if s != [] && s[0] == 'L' then Some((Left, s[1..]))
    else if s != [] && s[0] == 'R' then Some((Right, s[1..]))
    else None
  }

  /** `parse_count`: `digit1` followed by `str::parse::<u32>`. */
  function ParseCount(s: string): (r: Option<(nat, string)>)
    ensures r.Some? <==> LeadingDigits(s) > 0 && DecimalValue(s[..LeadingDigits(s)]) <= U32_MAX
    ensures r.Some? ==>
      && r.value.0 == DecimalValue(s[..LeadingDigits(s)]) && r.value.0 <= U32_MAX
      && r.value.1 == s[LeadingDigits(s)..]
  {
    ParseUnsigned(s, U32_MAX)
  }

  /** `parse_instruction`: an operation immediately followed by a count. */
  function ParseInstruction(s: string): (r: Option<(Instruction, string)>)
    ensures r.Some? <==> ParseOp(s).Some? && ParseCount(s[1..]).Some?
    ensures r.Some? ==>
      && |r.value.1| < |s|
      && r.value.0.argument <= U32_MAX
      && (r.value.1 == [] || !IsDigit(r.value.1[0]))
  {
    match ParseOp(s)
    case None => None
    case Some((op, s1)) =>
      match ParseCount(s1)
      case None => None
      case Some((count, s2)) => Some((Instruction(op, count), s2))
  }

  /** `parse_instruction` consumes a prefix of its input: what it leaves is a suffix. */
  lemma {:induction false} ParseInstructionLeavesSuffix(s: string)
    requires ParseInstruction(s).Some?
    ensures ParseInstruction(s).value.1 == s[|s| - |ParseInstruction(s).value.1|..]
  {
    var s2 := ParseCount(s[1..]).value.1;
    assert s2 == s[1..][|s| - 1 - |s2|..];
  }

  /** The message `parse` gives when a line does not start with an instruction. */
  function ParseErrorMessage(line: string): (r: string)
    ensures |r| == |line| + 16
    ensures r[..15] == "error parsing '"
    ensures r[15..15 + |line|] == line
    ensures r[|r| - 1] == '\''
  {
    "error parsing '" + line + "'"
  }

  /**
   * `parse`: one line to an instruction; whatever follows the instruction on the line is
   * ignored, and a line that does not start with one is a `NomError`.
   */
  function Parse(line: string): (r: Result<Instruction>)
    ensures r.Ok? <==> ParseInstruction(line).Some?
    ensures r.Ok? ==> r.value == ParseInstruction(line).value.0
    ensures r.Err? ==> r.error == NomError(ParseErrorMessage(line))
  {
    match ParseInstruction(line)
    case None => Err(NomError(ParseErrorMessage(line)))
    case Some((instruction, _)) => Ok(instruction)
  }

  /** `Display for Instruction`: the operation's letter followed by the count in decimal. */
  function FormatInstruction(instruction: Instruction): (r: string)
    ensures |r| >= 2 && [r[0]] == OpSymbol(instruction.operation)
    ensures AllDigits(r[1..]) && DecimalValue(r[1..]) == instruction.argument
  {
    assert (OpSymbol(instruction.operation) + DecimalString(instruction.argument))[1..]
        == DecimalString(instruction.argument);
    OpSymbol(instruction.operation) + DecimalString(instruction.argument)
  }

  /** The letter of an operation parses back as that operation. */
  lemma {:induction false} ParseOpSymbol(op: Operation, tail: string)
    ensures ParseOp(OpSymbol(op) + tail) == Some((op, tail))
  {
    assert (OpSymbol(op) + tail)[1..] == tail;
  }

  lemma {:induction false} ParseInstructionOk(s: string, op: Operation, s1: string, count: nat, s2: string)
    requires ParseOp(s) == Some((op, s1)) && ParseCount(s1) == Some((count, s2))
    ensures ParseInstruction(s) == Some((Instruction(op, count), s2))
  {
  }

  /** Printing an instruction and parsing it back gives the instruction, with `rest` left over. */
  lemma {:induction false} ParseFormatInstruction(instruction: Instruction, rest: string)
    requires instruction.argument <= U32_MAX
    requires rest == [] || !IsDigit(rest[0])
    ensures ParseInstruction(FormatInstruction(instruction) + rest) == Some((instruction, rest))
  {
    var symbol := OpSymbol(instruction.operation);
    var digits := DecimalString(instruction.argument);
    AppendAssoc(symbol, digits, rest);
    ParseOpSymbol(instruction.operation, digits + rest);
    ParseUnsignedDecimalString(instruction.argument, rest, U32_MAX);
    ParseInstructionOk(FormatInstruction(instruction) + rest, instruction.operation, digits + rest,
                       instruction.argument, rest);
  }

  /** A printed instruction is a line that `parse` reads back as the same instruction. */
  lemma {:induction false} ParsePrintedLine(instruction: Instruction)
    requires instruction.argument <= U32_MAX
    ensures Parse(FormatInstruction(instruction)) == Ok(instruction)
  {
    ParseFormatInstruction(instruction, []);
    assert FormatInstruction(instruction) + [] == FormatInstruction(instruction);
  }

  /** "L" parses as the left operation. */
  lemma {:induction false} ParseOpFixture()
    ensures ParseOp("L") == Some((Left, ""))
  {
    assert "L"[1..] == "";
  }

  /** "123" parses as the count 123 with nothing left. */
  lemma {:induction false} ParseCountFixture()
    ensures ParseCount("123") == Some((123, ""))
  {
    DecimalValue3('1', '2', '3');
    ParseUnsignedPrefix("123", "", U32_MAX);
    assert "123" + "" == "123";
  }

  /** "L8" parses as a left rotation by 8 with nothing left. */
  lemma {:induction false} ParseInstructionFixture()
    ensures ParseInstruction("L8") == Some((Instruction(Left, 8), ""))
  {
    DecimalValue1('8');
    ParseUnsignedPrefix("8", "", U32_MAX);
    assert "8" + "" == "8";
    assert "L8"[1..] == "8";
    ParseInstructionOk("L8", Left, "8", 8, "");
  }
}
