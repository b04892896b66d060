/** The run loop: opcode fetch, control flow, jumps and pushes. */
module Interpreter {
  import opened Digits
  import opened WrappingArith
  import opened ModularPowerTwo
  import opened ResourceCounters
  import opened JumpTable

  const STACK_LIMIT: nat := 1024
  const STEP_NATIVE_COST: nat := 20
  const VERYLOW: nat := 3
  const MID: nat := 8
  const HIGH: nat := 10
  const JUMP_NATIVE_COST: nat := 70
  const JUMPI_NATIVE_COST: nat := 300

  const STOP: nat := 0x00
  const JUMP: nat := 0x56
  const JUMPI: nat := 0x57

  /** Why a run stopped; `Halted` stands for the exits of the opcodes modelled by `effect`. */
  datatype Exit =
    Running | Stopped | OutOfGas | NativeExhausted | StackUnderflow | StackOverflow | InvalidJump | Halted(code: nat)

  /** What any other opcode does: it replaces the stack, is charged, and may end or suspend the run. */
  datatype Effect = Effect(stack: seq<nat>, resources: Resources, exit: Exit)

  /** Native costs of `PUSH0` to `PUSH32`. */
  const PUSH_NATIVE_COSTS: seq<nat> := [
    50, 60, 120, 140, 140, 150, 160, 170, 180, 190, 200, 210, 210, 220, 230, 240, 240,
    240, 240, 240, 240, 250, 260, 260, 260, 260, 270, 280, 280, 290, 290, 300, 300]

  /** An instruction starts at `ip`, or the code has ended. */
  ghost predicate AtInstruction(code: seq<nat>, ip: nat) {
    Boundary(code, ip) || ip >= |code|
  }

  /** Code bytes from `start`, with the zeros the specification reads past the end. */
  function Extended(code: seq<nat>, start: nat, n: nat): (s: seq<nat>)
    ensures |s| == n
  {
    seq(n, i requires 0 <= i < n => if start + i < |code| then code[start + i] else 0)
  }

  /** The bytes of the immediate that the code still has. */
  function Copied(code: seq<nat>, start: nat, n: nat): (s: seq<nat>)
    ensures |s| <= n
    ensures forall i :: 0 <= i < n ==> Extended(code, start, n)[i] == if i < |s| then s[i] else 0
  {
    if start < |code| then Extended(code, start, if n < |code| - start then n else |code| - start) else []
  }

  function Padded(s: seq<nat>, width: nat): (r: seq<nat>)
    requires |s| <= width
    ensures |r| == width && forall i :: 0 <= i < width ==> r[i] == if i < |s| then s[i] else 0
  {
    s + seq(width - |s|, _ => 0)
  }

  /** A 32-byte buffer whose first bytes are the immediate, read big-endian and shifted down. */
  function Immediate(code: seq<nat>, start: nat, n: nat): (v: nat)
    requires 1 <= n <= 32
  {
    ImmediateIn(code, start, n, 32)
  }

  function ImmediateIn(code: seq<nat>, start: nat, n: nat, width: nat): (v: nat)
    requires 1 <= n <= width
  {
    var buffer := Padded(Copied(code, start, n), width);
    DivModDef(BigEndian(buffer), Pow(256, width - n));
    BigEndian(buffer) / Pow(256, width - n)
  }

  /** A truncated immediate reads as if the code went on with zeros. */
  lemma ImmediateExtends(code: seq<nat>, start: nat, n: nat, width: nat)
    requires 1 <= n <= width
    ensures ImmediateIn(code, start, n, width) == BigEndian(Extended(code, start, n))
  {
    var copied := Copied(code, start, n);
    PaddedBuffer(copied, n, width, Padded(copied, width), Extended(code, start, n));
  }

  /** The first `n` of `width` bytes are what a shift by the others leaves, when those are zero. */
  lemma PaddedBuffer(copied: seq<nat>, n: nat, width: nat, buffer: seq<nat>, extended: seq<nat>)
    requires |copied| <= n == |extended| <= width == |buffer|
    requires forall i :: 0 <= i < width ==> buffer[i] == if i < |copied| then copied[i] else 0
    requires forall i :: 0 <= i < n ==> extended[i] == if i < |copied| then copied[i] else 0
    ensures BigEndian(buffer) / Pow(256, width - n) == BigEndian(extended)
  {
    assert buffer[..n] == extended;
    BigEndianSplit(buffer, width - n);
    ZeroBytes(buffer[n..]);
    Commute(Pow(256, width - n), BigEndian(extended));
    DivModUnique(BigEndian(buffer), Pow(256, width - n), BigEndian(extended), 0);
  }

  //// What each instruction does

  datatype State = State(ip: nat, stack: seq<nat>, resources: Resources)

  ghost predicate Bought(r: Resources, gas: nat, native: nat) { native <= r.native && gas * ERGS_PER_GAS <= r.ergs }

  /** A charge: native that is short ends the transaction, gas that is short the frame. */
  ghost predicate Pays(r: Resources, gas: nat, native: nat, r': Resources, exit: Exit) {
    if r.native < native then exit == NativeExhausted && r'.native == 0
    else
      && r'.native + native == r.native
      && if r.ergs < gas * ERGS_PER_GAS then exit == OutOfGas && r'.ergs == 0
         else exit == Running && r'.ergs + gas * ERGS_PER_GAS == r.ergs
  }

  /** JUMP: to the destination on the stack, if that is one. */
  ghost predicate JumpRule(code: seq<nat>, stack: seq<nat>, r: Resources, s': State, exit: Exit) {
    if !Bought(r, 8, 70) then Pays(r, 8, 70, s'.resources, exit) && s'.stack == stack
    else
      && Pays(r, 8, 70, s'.resources, Running)
      && if |stack| < 1 then exit == StackUnderflow && s'.stack == stack
         else
           var dest := stack[|stack| - 1];
           && s'.stack == stack[..|stack| - 1]
           && if IsJumpdest(code, dest) then exit == Running && s'.ip == dest else exit == InvalidJump
  }

  /** JUMPI: the destination is on top, the condition below it; `next` is where a zero condition leads. */
  ghost predicate JumpIfRule(code: seq<nat>, next: nat, stack: seq<nat>, r: Resources, s': State, exit: Exit) {
    if !Bought(r, 10, 300) then Pays(r, 10, 300, s'.resources, exit) && s'.stack == stack
    else
      && Pays(r, 10, 300, s'.resources, Running)
      && if |stack| < 2 then exit == StackUnderflow && s'.stack == stack
         else
           var dest, condition := stack[|stack| - 1], stack[|stack| - 2];
           && s'.stack == stack[..|stack| - 2]
           && if condition == 0 then exit == Running && s'.ip == next
              else if IsJumpdest(code, dest) then exit == Running && s'.ip == dest else exit == InvalidJump
  }

  /** PUSH1 to PUSH32: the `n` bytes from `start`, big-endian, with zeros past the end of the code. */
  ghost predicate PushRule(code: seq<nat>, start: nat, n: nat, stack: seq<nat>, r: Resources, s': State, exit: Exit)
    requires 1 <= n <= 32
  {
    var native := PUSH_NATIVE_COSTS[n];
    if !Bought(r, 3, native) then Pays(r, 3, native, s'.resources, exit) && s'.stack == stack
    else
      && Pays(r, 3, native, s'.resources, Running)
      && if |stack| == 1024 then exit == StackOverflow && s'.stack == stack
         else exit == Running && s'.ip == start + n && s'.stack == stack + [BigEndian(Extended(code, start, n))]
  }

  /** One instruction, by opcode; `next` is the byte after it. */
  ghost predicate OpcodeRule(code: seq<nat>, effect: (nat, seq<nat>, Resources) -> Effect, op: nat, next: nat,
                             stack: seq<nat>, r: Resources, s': State, exit: Exit)
  {
    if op == 0x00 then exit == Stopped && s'.stack == stack && s'.resources == r
    else if op == 0x56 then JumpRule(code, stack, r, s', exit)
    else if op == 0x57 then JumpIfRule(code, next, stack, r, s', exit)
    else if 0x60 <= op <= 0x7f then PushRule(code, next, op - 0x5f, stack, r, s', exit)
    else effect(op, stack, r) == Effect(s'.stack, s'.resources, exit) && s'.ip == next
  }

  /** One turn: past the end of the code the instruction is STOP, and every instruction pays 20 native first. */
  ghost predicate Rule(code: seq<nat>, effect: (nat, seq<nat>, Resources) -> Effect, s: State, s': State, exit: Exit) {
    if s.resources.native < 20 then exit == NativeExhausted && s'.stack == s.stack && s'.resources.native == 0
    else
      OpcodeRule(code, effect, if s.ip < |code| then code[s.ip] else 0x00, s.ip + 1, s.stack,
                 Resources(s.resources.ergs, s.resources.native - 20), s', exit)
  }

  class Machine {
    const code: seq<nat>
    const table: Preprocessing
    const usizeLimit: nat
    var ip: nat
    var stack: seq<nat>
    var resources: Resources

    constructor (code: seq<nat>, table: Preprocessing, usizeLimit: nat, resources: Resources)
      requires IsDigits(256, code) && Answers(table, code) && |code| < usizeLimit
      ensures Valid() && this.code == code && this.table == table && this.resources == resources && ip == 0
    {
      this.code := code;
      this.table := table;
      this.usizeLimit := usizeLimit;
      this.resources := resources;
      ip := 0;
      stack := [];
    }

    ghost predicate Valid()
      reads this
    {
      IsDigits(256, code) && Answers(table, code) && |code| < usizeLimit && AtInstruction(code, ip)
    }

    /** `get_bytecode_unchecked`: past the end the code reads as `STOP`. */
    function Fetch(): (op: nat)
      reads this
    {
      if ip < |code| then code[ip] else STOP
    }

    ghost function Now(): (s: State)
      reads this
    {
      State(ip, stack, resources)
    }

    method Spend(gas: nat, native: nat) returns (exit: Exit)
      modifies this`resources
      ensures gas * ERGS_PER_GAS <= U64_MAX ==> Pays(old(resources), gas, native, resources, exit)
      ensures exit.Running? ==> resources.native + native == old(resources.native)
      ensures exit in {Running, OutOfGas, NativeExhausted} && resources.native <= old(resources.native)
      ensures exit.Running? <==> Affords(old(resources), gas, native)
    {
      var (r, c) := SpendGas(resources, gas, native);
      resources := r;
      exit := match c case Paid => Running case OutOfErgs => OutOfGas case OutOfNative => NativeExhausted;
    }

    /** `jump`: taken exactly to jump destinations. */
    method Jump() returns (exit: Exit)
      requires Answers(table, code) && |code| < usizeLimit
      modifies this`ip, this`stack, this`resources
      ensures JumpRule(code, old(stack), old(resources), Now(), exit)
      ensures exit in {OutOfGas, NativeExhausted} <==> !Affords(old(resources), MID, JUMP_NATIVE_COST)
      ensures exit.StackUnderflow? <==> Affords(old(resources), MID, JUMP_NATIVE_COST) && old(stack) == []
      ensures exit in {Running, InvalidJump} ==> |old(stack)| > 0
      ensures exit in {Running, InvalidJump} ==> (exit.Running? <==> IsJumpdest(code, old(stack)[|old(stack)| - 1]))
      ensures exit in {OutOfGas, NativeExhausted, StackUnderflow, Running, InvalidJump}
      ensures exit.Running? ==> ip == old(stack)[|old(stack)| - 1] && stack == old(stack)[..|old(stack)| - 1]
      ensures resources.native <= old(resources.native) && !exit.Halted?
    {
      exit := Spend(MID, JUMP_NATIVE_COST);
      if !exit.Running? { return; }
      if |stack| < 1 { return StackUnderflow; }
      var dest := stack[|stack| - 1];
      stack := stack[..|stack| - 1];
      if dest >= usizeLimit { return InvalidJump; }
      if !IsValidJumpdest(table, dest) { return InvalidJump; }
      ip := dest;
    }

    /** `jumpi`: falls through on a zero condition, else like `jump`. */
    method JumpIf() returns (exit: Exit)
      requires Answers(table, code) && |code| < usizeLimit
      modifies this`ip, this`stack, this`resources
      ensures JumpIfRule(code, old(ip), old(stack), old(resources), Now(), exit)
      ensures exit in {OutOfGas, NativeExhausted} <==> !Affords(old(resources), HIGH, JUMPI_NATIVE_COST)
      ensures exit.StackUnderflow? <==> Affords(old(resources), HIGH, JUMPI_NATIVE_COST) && |old(stack)| < 2
      ensures exit in {OutOfGas, NativeExhausted, StackUnderflow, Running, InvalidJump}
      ensures exit in {Running, InvalidJump} ==> |old(stack)| > 1
      ensures exit in {Running, InvalidJump} ==>
        (exit.Running? <==> old(stack)[|old(stack)| - 2] == 0 || IsJumpdest(code, old(stack)[|old(stack)| - 1]))
      ensures exit.Running? ==> stack == old(stack)[..|old(stack)| - 2]
      ensures exit.Running? ==>
        ip == if old(stack)[|old(stack)| - 2] == 0 then old(ip) else old(stack)[|old(stack)| - 1]
      ensures resources.native <= old(resources.native) && !exit.Halted?
    {
      exit := Spend(HIGH, JUMPI_NATIVE_COST);
      if !exit.Running? { return; }
      if |stack| < 2 { return StackUnderflow; }
      var dest, value := stack[|stack| - 1], stack[|stack| - 2];
      stack := stack[..|stack| - 2];
      if value != 0 {
        if dest >= usizeLimit { return InvalidJump; }
        if !IsValidJumpdest(table, dest) { return InvalidJump; }
        ip := dest;
      }
    }

    /** `push`: the immediate, with zeros past the end of the code. */
    method Push(n: nat) returns (exit: Exit)
      requires 1 <= n <= 32 && IsDigits(256, code)
      modifies this`ip, this`stack, this`resources
      ensures PushRule(code, old(ip), n, old(stack), old(resources), Now(), exit)
      ensures exit.Running? <==> Affords(old(resources), VERYLOW, PUSH_NATIVE_COSTS[n]) && |old(stack)| != STACK_LIMIT
      ensures exit.Running? ==> ip == old(ip) + n && stack == old(stack) + [BigEndian(Extended(code, old(ip), n))]
      ensures resources.native <= old(resources.native) && !exit.Halted?
    {
      exit := Spend(VERYLOW, PUSH_NATIVE_COSTS[n]);
      if !exit.Running? { return; }
      var value := Immediate(code, ip, n);
      ImmediateExtends(code, ip, n, 32);
      ip := ip + n;
      if |stack| == STACK_LIMIT { return StackOverflow; }
      stack := stack + [value];
    }

    /** The opcode's own work, once it has been fetched. */
    method Dispatch(op: nat, effect: (nat, seq<nat>, Resources) -> Effect) returns (exit: Exit)
      requires IsDigits(256, code) && Answers(table, code) && |code| < usizeLimit && Declines(effect)
      modifies this`ip, this`stack, this`resources
      ensures OpcodeRule(code, effect, op, old(ip), old(stack), old(resources), Now(), exit)
      ensures resources.native <= old(resources.native)
    {
      if op == STOP {
        exit := Stopped;
      } else if op == JUMP {
        exit := Jump();
      } else if op == JUMPI {
        exit := JumpIf();
      } else if PUSH1 <= op <= PUSH32 {
        exit := Push(op - PUSH1 + 1);
      } else {
        var e := effect(op, stack, resources);
        stack, resources, exit := e.stack, e.resources, e.exit;
      }
    }

    /** One turn of the loop. A suspended or resumable machine is at an instruction again. */
    method Step(effect: (nat, seq<nat>, Resources) -> Effect) returns (exit: Exit, completed: bool)
      requires Valid() && Declines(effect)
      modifies this
      ensures Rule(code, effect, old(Now()), Now(), exit)
      ensures exit.Running? || exit.Halted? ==> Valid()
      ensures exit.Running? ==> Follows(code, old(ip), ip)
      ensures completed ==> resources.native + STEP_NATIVE_COST <= old(resources.native)
      ensures exit.Running? ==> completed
      ensures resources.native <= old(resources.native)
    {
      var op := Fetch();
      ghost var here := ip;
      ip := ip + 1;
      completed := false;
      exit := Spend(0, STEP_NATIVE_COST);
      if !exit.Running? { return; }
      completed := true;
      ghost var before := Now();
      exit := Dispatch(op, effect);
      RuleFollows(code, effect, here, op, before.stack, before.resources, Now(), exit);
    }

    /** `run`: every two states in a row are related by the rule of the instruction between them, and so are the last
        and the exit. Every instruction fetched is at an instruction boundary or past the end, and the number of
        completed turns is bounded by the native resource. */
    method Run(effect: (nat, seq<nat>, Resources) -> Effect) returns (exit: Exit, steps: nat, ghost trace: seq<State>)
      requires Valid() && Declines(effect)
      modifies this
      ensures Traced(code, effect, trace) && trace[0] == old(Now())
      ensures Rule(code, effect, trace[|trace| - 1], Now(), exit)
      ensures !exit.Running? && steps <= |trace| <= steps + 1
      ensures steps * STEP_NATIVE_COST + resources.native <= old(resources.native)
      ensures exit.Halted? ==> Valid()
    {
      var completed;
      trace, steps := [Now()], 0;
      exit, completed := Step(effect);
      if completed { steps := 1; }
      while exit.Running?
        invariant exit.Running? || exit.Halted? ==> Valid()
        invariant Traced(code, effect, trace) && trace[0] == old(Now())
        invariant Rule(code, effect, trace[|trace| - 1], Now(), exit)
        invariant exit.Running? ==> Follows(code, trace[|trace| - 1].ip, ip)
        invariant steps <= |trace| <= steps + 1 && (exit.Running? ==> |trace| == steps)
        invariant steps * STEP_NATIVE_COST + resources.native <= old(resources.native)
        decreases resources.native, exit.Running?
      {
        TraceNext(code, effect, trace, Now());
        trace := trace + [Now()];
        exit, completed := Step(effect);
        if completed { steps := steps + 1; }
      }
    }
  }

  /** Inside the code, the next instruction is the following one or a jump destination. */
  ghost predicate Follows(code: seq<nat>, here: nat, next: nat) {
    here < |code| && (next == Next(code, here) || IsJumpdest(code, next))
  }

  /** An instruction leads to another, or leaves the machine at one. */
  lemma RuleFollows(code: seq<nat>, effect: (nat, seq<nat>, Resources) -> Effect, here: nat, op: nat, stack: seq<nat>,
                    r: Resources, s': State, exit: Exit)
    requires AtInstruction(code, here) && op == if here < |code| then code[here] else STOP
    requires OpcodeRule(code, effect, op, here + 1, stack, r, s', exit)
    ensures exit.Running? ==> Follows(code, here, s'.ip)
    ensures exit.Running? || exit.Halted? ==> AtInstruction(code, s'.ip)
  {
    if here < |code| { NextBoundary(code, here); }
  }

  /** The states of a run: each is at an instruction, and the next one by that instruction's rule. */
  ghost predicate Traced(code: seq<nat>, effect: (nat, seq<nat>, Resources) -> Effect, trace: seq<State>) {
    && |trace| > 0 && (forall i :: 0 <= i < |trace| ==> AtInstruction(code, trace[i].ip))
    && (forall i :: 0 < i < |trace| ==> Rule(code, effect, trace[i - 1], trace[i], Running))
    && (forall i :: 0 < i < |trace| ==> Follows(code, trace[i - 1].ip, trace[i].ip))
  }

  lemma TraceNext(code: seq<nat>, effect: (nat, seq<nat>, Resources) -> Effect, trace: seq<State>, s: State)
    requires Traced(code, effect, trace) && Rule(code, effect, trace[|trace| - 1], s, Running)
    requires AtInstruction(code, s.ip) && Follows(code, trace[|trace| - 1].ip, s.ip)
    ensures Traced(code, effect, trace + [s])
  {}

  /** Other opcodes are only ever charged native, never credited. */
  ghost predicate Declines(effect: (nat, seq<nat>, Resources) -> Effect) {
    forall op, st, r :: effect(op, st, r).resources.native <= r.native
  }
}
