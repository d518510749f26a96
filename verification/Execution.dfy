/** Program counter, return stack and fuel (sections 2.2, 3.1 and 6.5) while emitted words are executed. */
module Execution {
  import opened Instructions
  import opened Options

  const HALT := 0x00
  const JMP := 0x50
  const JZ := 0x51
  const JNZ := 0x52
  const LOOP_DECR := 0x53
  const CALL := 0x55
  const RET := 0x56

  /** `call_stack` is `uint32_t[8]`. */
  const MAX_CALLS := 8

  predicate IsBranch(opcode: nat) {
    opcode == JMP || opcode == JZ || opcode == JNZ || opcode == LOOP_DECR || opcode == CALL
  }

  /** Fault stands for the error codes that depend on registers and data (trap, throw, assertion, ...). */
  datatype Status =
    | Running
    | Ok
    | InvalidOpcode
    | OutOfBounds
    | StackOverflow
    | StackUnderflow
    | GasExhausted
    | Fault(code: nat)

  /**
   * What registers and data decide about one step: whether a conditional branch is taken, and whether
   * the instruction faults.
   */
  datatype Choice = Choice(taken: bool, fault: Option<nat>)

  /** Where a branch leads, from its opcode, its own position and its payload. */
  type Target = (nat, nat, nat) -> nat

  /** The control part of the state; positions are words, or lines in the reference semantics. */
  datatype Control = Control(pc: nat, calls: seq<nat>, fuel: nat, status: Status)

  /** One executed instruction: `goal` is where it branches to, `next` the position after it. */
  function Effect(opcode: nat, goal: nat, next: nat, choice: Choice, c: Control): Control
    requires c.fuel > 0
  {
    var spent := c.(fuel := c.fuel - 1);
    if opcode == HALT then spent.(status := Ok)
    else if choice.fault.Some? then spent.(status := Fault(choice.fault.value))
    else if opcode == CALL then
      if |c.calls| >= MAX_CALLS then spent.(status := StackOverflow)
      else spent.(pc := goal, calls := c.calls + [c.pc])
    else if opcode == RET then
      if c.calls == [] then spent.(status := StackUnderflow)
      else spent.(pc := c.calls[|c.calls| - 1] + 1, calls := c.calls[..|c.calls| - 1])
    else if opcode == JMP || (IsBranch(opcode) && choice.taken) then spent.(pc := goal)
    else spent.(pc := next)
  }

  /** Fetch, decode and execute at pc. A halt or fault leaves pc on the instruction that caused it. */
  function Next(slots: seq<Slot>, target: Target, choice: Choice, c: Control): Control {
    if c.status != Running then c
    else if c.fuel == 0 then c.(status := GasExhausted)
    else if c.pc >= |slots| then c.(status := OutOfBounds)
    else
      match DecodeAt(slots, c.pc)
      case None => c.(status := InvalidOpcode)
      case Some(f) =>
        var d := f.instruction;
        Effect(d.opcode, target(d.opcode, c.pc, d.payload), c.pc + f.width, choice, c)
  }

  function Run(slots: seq<Slot>, target: Target, choices: seq<Choice>, c: Control): Control {
    if choices == [] then c
    else Next(slots, target, choices[|choices| - 1], Run(slots, target, choices[..|choices| - 1], c))
  }

  function First(choices: nat -> Choice, n: nat): (s: seq<Choice>)
    ensures |s| == n
  {
    seq(n, (i: nat) => choices(i))
  }

  lemma {:induction false} RunNext(slots: seq<Slot>, target: Target, choices: nat -> Choice, n: nat, c: Control)
    ensures Run(slots, target, First(choices, n + 1), c)
         == Next(slots, target, choices(n), Run(slots, target, First(choices, n), c))
  {
    var longer := First(choices, n + 1);
    assert |longer| == n + 1 && longer[n] == choices(n);
    assert longer[..n] == First(choices, n);
  }

  /** The execution context the loop of the virtual machine updates step by step. */
  class Context {
    var pc: nat
    var calls: seq<nat>
    var fuel: nat
    var status: Status

    ghost function Now(): Control
      reads this
    {
      Control(pc, calls, fuel, status)
    }

    constructor (budget: nat)
      ensures Now() == Control(0, [], budget, Running)
    {
      pc, calls, fuel, status := 0, [], budget, Running;
    }

    method Step(slots: seq<Slot>, target: Target, choice: Choice)
      requires status == Running
      modifies this
      ensures Now() == Next(slots, target, choice, old(Now()))
    {
      if fuel == 0 {
        status := GasExhausted;
        return;
      }
      if pc >= |slots| {
        status := OutOfBounds;
        return;
      }
      var fetched := DecodeAt(slots, pc);
      if fetched.None? {
        status := InvalidOpcode;
        return;
      }
      fuel := fuel - 1;
      var d := fetched.value.instruction;
      if d.opcode == HALT {
        status := Ok;
      } else if choice.fault.Some? {
        status := Fault(choice.fault.value);
      } else if d.opcode == CALL {
        if |calls| >= MAX_CALLS {
          status := StackOverflow;
        } else {
          calls := calls + [pc];
          pc := target(d.opcode, pc, d.payload);
        }
      } else if d.opcode == RET {
        if calls == [] {
          status := StackUnderflow;
        } else {
          pc := calls[|calls| - 1] + 1;
          calls := calls[..|calls| - 1];
        }
      } else if d.opcode == JMP || (IsBranch(d.opcode) && choice.taken) {
        pc := target(d.opcode, pc, d.payload);
      } else {
        pc := pc + fetched.value.width;
      }
    }

    /** Runs until the machine stops, which takes at most one step more than there is fuel. */
    method Execute(slots: seq<Slot>, target: Target, choices: nat -> Choice) returns (steps: nat)
      modifies this
      ensures status != Running && steps <= old(fuel) + 1
      ensures Now() == Run(slots, target, First(choices, steps), old(Now()))
      ensures old(fuel) - fuel <= steps
    {
      steps := 0;
      while status == Running
        invariant steps + fuel <= old(fuel) + (if status == Running then 0 else 1)
        invariant old(fuel) - fuel <= steps
        invariant Now() == Run(slots, target, First(choices, steps), old(Now()))
        decreases fuel, status == Running
      {
        Step(slots, target, choices(steps));
        RunNext(slots, target, choices, steps, old(Now()));
        steps := steps + 1;
      }
    }
  }

  // ---- Halts and faults ----

  /** The step that halts or faults leaves pc and the stack where they were. */
  lemma StopKeepsPc(slots: seq<Slot>, target: Target, choice: Choice, c: Control)
    ensures var after := Next(slots, target, choice, c);
            after.status != Running ==> after.pc == c.pc && after.calls == c.calls
  {
  }

  /** However long a stopped run has been stopped, pc is still that of the instruction that stopped it. */
  lemma {:induction false} StoppedAtItsInstruction(slots: seq<Slot>, target: Target, choices: seq<Choice>, c: Control)
    returns (n: nat)
    requires c.status == Running && Run(slots, target, choices, c).status != Running
    ensures n < |choices| && Run(slots, target, choices[..n], c).status == Running
    ensures Run(slots, target, choices[..n + 1], c) == Run(slots, target, choices, c)
    ensures Run(slots, target, choices, c).pc == Run(slots, target, choices[..n], c).pc
  {
    var m := |choices| - 1;
    if Run(slots, target, choices[..m], c).status == Running {
      n := m;
      assert choices[..m + 1] == choices;
      StopKeepsPc(slots, target, choices[m], Run(slots, target, choices[..m], c));
    } else {
      n := StoppedAtItsInstruction(slots, target, choices[..m], c);
      assert choices[..m][..n] == choices[..n] && choices[..m][..n + 1] == choices[..n + 1];
    }
  }

  // ---- Fuel and stack depth ----

  /** Every run, whatever the program, branch targets and data: fuel bounds it and the stack holds eight frames. */
  lemma {:induction false} RunBounds(slots: seq<Slot>, target: Target, choices: seq<Choice>, c: Control)
    requires |c.calls| <= MAX_CALLS
    ensures |Run(slots, target, choices, c).calls| <= MAX_CALLS
    ensures Run(slots, target, choices, c).fuel <= c.fuel
    ensures Run(slots, target, choices, c).status == Running ==>
              c.status == Running && Run(slots, target, choices, c).fuel == c.fuel - |choices|
  {
    if choices != [] {
      RunBounds(slots, target, choices[..|choices| - 1], c);
    }
  }

  /** A machine with fuel F is stopped after F + 1 steps, the last of which can only report exhaustion. */
  lemma {:induction false} FuelStops(slots: seq<Slot>, target: Target, choices: seq<Choice>, c: Control)
    requires |c.calls| <= MAX_CALLS
    requires |choices| > c.fuel
    ensures Run(slots, target, choices, c).status != Running
  {
    RunBounds(slots, target, choices, c);
  }

  // ---- Calls and returns ----

  /** The stack is left alone, or pc is pushed, or a call is popped and resumed after. */
  predicate StackMoved(c: Control, after: Control) {
    || after.calls == c.calls
    || after.calls == c.calls + [c.pc]
    || (c.calls != [] && after.calls == c.calls[..|c.calls| - 1] && after.pc == c.calls[|c.calls| - 1] + 1)
  }

  lemma StackMoves(slots: seq<Slot>, target: Target, choice: Choice, c: Control)
    ensures StackMoved(c, Next(slots, target, choice, c))
  {
  }

  lemma FrameKept(c: Control, after: Control, d: nat)
    requires StackMoved(c, after) && |c.calls| > d && |after.calls| > d
    ensures after.calls[..d + 1] == c.calls[..d + 1]
  {
  }

  /** While the stack stays above depth d, its lowest d + 1 frames do not change. */
  lemma {:induction false} FramesKept(slots: seq<Slot>, target: Target, choices: seq<Choice>, c: Control, d: nat)
    requires forall n :: 0 <= n <= |choices| ==> |Run(slots, target, choices[..n], c).calls| > d
    ensures |c.calls| > d && |Run(slots, target, choices, c).calls| > d
    ensures Run(slots, target, choices, c).calls[..d + 1] == c.calls[..d + 1]
  {
    assert choices[..0] == [] && choices[..|choices|] == choices;
    if choices != [] {
      var init := choices[..|choices| - 1];
      forall n | 0 <= n <= |init| ensures |Run(slots, target, init[..n], c).calls| > d {
        assert init[..n] == choices[..n];
      }
      FramesKept(slots, target, init, c, d);
      var before := Run(slots, target, init, c);
      StackMoves(slots, target, choices[|choices| - 1], before);
      FrameKept(before, Run(slots, target, choices, c), d);
    }
  }

  lemma PopsItsFrame(c: Control, start: Control, before: Control, last: Control)
    requires StackMoved(c, start) && |start.calls| == |c.calls| + 1
    requires |before.calls| > |c.calls| && before.calls[..|c.calls| + 1] == start.calls[..|c.calls| + 1]
    requires StackMoved(before, last) && |last.calls| == |c.calls|
    ensures last.pc == c.pc + 1 && last.calls == c.calls
  {
    assert start.calls == c.calls + [c.pc];
    assert before.calls == before.calls[..|c.calls| + 1];
  }

  /**
   * A return undoes its call: from the step that pushed a frame, through any run that keeps that frame,
   * the step that pops it resumes at the word after the call with the caller's stack.
   */
  lemma {:induction false} ReturnUndoesCall(slots: seq<Slot>, target: Target, call: Choice, body: seq<Choice>,
                                            ret: Choice, c: Control, start: Control, last: Control)
    requires start == Next(slots, target, call, c) && |start.calls| == |c.calls| + 1
    requires forall n :: 0 <= n <= |body| ==> |Run(slots, target, body[..n], start).calls| > |c.calls|
    requires last == Next(slots, target, ret, Run(slots, target, body, start)) && |last.calls| == |c.calls|
    ensures last.pc == c.pc + 1 && last.calls == c.calls
  {
    var before := Run(slots, target, body, start);
    StackMoves(slots, target, call, c);
    FramesKept(slots, target, body, start, |c.calls|);
    StackMoves(slots, target, ret, before);
    PopsItsFrame(c, start, before, last);
  }

  // ---- Heads and extension words ----

  predicate IsHead(lines: seq<Line>, word: nat) {
    exists i: nat :: i < |lines| && Head(lines, i) == word
  }

  /** The second word of a two-word line. */
  predicate IsTombstone(lines: seq<Line>, word: nat) {
    exists i: nat :: i < |lines| && lines[i].Extended() && Head(lines, i) + 1 == word
  }

  predicate Assembled(lines: seq<Line>) {
    forall i :: 0 <= i < |lines| ==> lines[i].Known() && lines[i].Encodable()
  }

  lemma {:induction false} HeadsAscend(lines: seq<Line>, i: nat, j: nat)
    requires i < j <= |lines|
    ensures Head(lines, i) + lines[i].Width() <= Head(lines, j)
  {
    if i + 1 < j {
      HeadsAscend(lines, i, j - 1);
    }
  }

  lemma {:induction false} EmittedLength(lines: seq<Line>)
    ensures |EmitAll(lines)| == Head(lines, |lines|)
  {
    HeadIsLength(lines, |lines|);
    assert Parts(lines)[..|lines|] == Parts(lines);
  }

  /** Every emitted word is the head of a line or the extension word of one, never both. */
  lemma {:induction false} WordKinds(lines: seq<Line>, n: nat, word: nat)
    requires n <= |lines| && word < Head(lines, n)
    ensures IsHead(lines, word) != IsTombstone(lines, word)
  {
    if Head(lines, n - 1) <= word {
      if word == Head(lines, n - 1) {
        assert IsHead(lines, word);
        NoTombstoneAtHead(lines, n - 1);
      } else {
        assert IsTombstone(lines, word);
        NoHeadAtTombstone(lines, n - 1);
      }
    } else {
      WordKinds(lines, n - 1, word);
    }
  }

  lemma {:induction false} NoTombstoneAtHead(lines: seq<Line>, i: nat)
    requires i < |lines|
    ensures !IsTombstone(lines, Head(lines, i))
  {
    forall j: nat | j < |lines| && lines[j].Extended() ensures Head(lines, j) + 1 != Head(lines, i) {
      if j < i {
        HeadsAscend(lines, j, i);
      } else if i < j {
        HeadsAscend(lines, i, j);
      }
    }
  }

  lemma {:induction false} NoHeadAtTombstone(lines: seq<Line>, i: nat)
    requires i < |lines| && lines[i].Extended()
    ensures !IsHead(lines, Head(lines, i) + 1)
  {
    forall j: nat | j < |lines| ensures Head(lines, j) != Head(lines, i) + 1 {
      if j < i {
        HeadsAscend(lines, j, i);
      } else if i < j {
        HeadsAscend(lines, i, j);
      }
    }
  }

  /** An instruction can be fetched exactly at the heads: nothing can execute from the middle of a line. */
  lemma DecodesExactlyAtHeads(lines: seq<Line>, word: nat)
    requires Assembled(lines)
    ensures DecodeAt(EmitAll(lines), word).Some? <==> IsHead(lines, word)
  {
    EmittedLength(lines);
    if word < Head(lines, |lines|) {
      WordKinds(lines, |lines|, word);
      if IsHead(lines, word) {
        var i: nat :| i < |lines| && Head(lines, i) == word;
        HeadHolds(lines, i);
        DecodeHeld(EmitAll(lines), word, lines[i]);
      } else {
        var i: nat :| i < |lines| && lines[i].Extended() && Head(lines, i) + 1 == word;
        HeadHolds(lines, i);
        assert EmitAll(lines)[Head(lines, i) + 1] == lines[i].Slots()[1];
      }
    } else {
      forall i: nat | i < |lines| ensures Head(lines, i) < word {
        HeadsAscend(lines, i, |lines|);
      }
    }
  }

  /** A branch into the middle of a two-word line stops the machine at once, without executing anything. */
  lemma TombstoneStops(lines: seq<Line>, target: Target, choice: Choice, c: Control)
    requires Assembled(lines) && c.status == Running && c.fuel > 0
    requires IsTombstone(lines, c.pc)
    ensures Next(EmitAll(lines), target, choice, c) == c.(status := InvalidOpcode)
  {
    var i: nat :| i < |lines| && lines[i].Extended() && Head(lines, i) + 1 == c.pc;
    NoHeadAtTombstone(lines, i);
    DecodesExactlyAtHeads(lines, c.pc);
    HeadHolds(lines, i);
  }

  // ---- Line semantics ----

  /** Every branch leads to the start of some line, or just past the last one. */
  predicate BranchesToLines(lines: seq<Line>, target: Target) {
    forall i: nat :: i < |lines| && IsBranch(lines[i].opcode) ==> StartsLine(lines, Goal(lines, target, i))
  }

  predicate StartsLine(lines: seq<Line>, word: nat) {
    exists j: nat :: j <= |lines| && Head(lines, j) == word
  }

  /** The word line i would branch to. */
  function Goal(lines: seq<Line>, target: Target, i: nat): nat
    requires i < |lines|
  {
    target(lines[i].opcode, Head(lines, i), lines[i].Meaning().payload)
  }

  ghost function LineAt(lines: seq<Line>, word: nat): (j: nat)
    requires StartsLine(lines, word)
    ensures j <= |lines| && Head(lines, j) == word
  {
    var j: nat :| j <= |lines| && Head(lines, j) == word;
    j
  }

  /** One step counted in source lines, as if every instruction were one word. */
  ghost function NextLine(lines: seq<Line>, target: Target, choice: Choice, c: Control): Control
    requires BranchesToLines(lines, target)
  {
    if c.status != Running then c
    else if c.fuel == 0 then c.(status := GasExhausted)
    else if c.pc >= |lines| then c.(status := OutOfBounds)
    else
      var goal := if IsBranch(lines[c.pc].opcode) then LineAt(lines, Goal(lines, target, c.pc)) else 0;
      Effect(lines[c.pc].opcode, goal, c.pc + 1, choice, c)
  }

  ghost function RunLines(lines: seq<Line>, target: Target, choices: seq<Choice>, c: Control): Control
    requires BranchesToLines(lines, target)
  {
    if choices == [] then c
    else NextLine(lines, target, choices[|choices| - 1], RunLines(lines, target, choices[..|choices| - 1], c))
  }

  /** Word positions w correspond to line positions s. */
  ghost predicate Matches(lines: seq<Line>, w: Control, s: Control) {
    && s.pc <= |lines| && w.pc == Head(lines, s.pc)
    && w.fuel == s.fuel && w.status == s.status
    && |w.calls| == |s.calls|
    && forall k :: 0 <= k < |s.calls| ==> CallMatches(lines, w.calls[k], s.calls[k])
  }

  /** A saved position is that of a CALL, which is always one word. */
  predicate CallMatches(lines: seq<Line>, word: nat, i: nat) {
    i < |lines| && lines[i].opcode == CALL && word == Head(lines, i)
  }

  lemma NextMatches(lines: seq<Line>, target: Target, choice: Choice, w: Control, s: Control)
    requires Assembled(lines) && BranchesToLines(lines, target)
    requires Matches(lines, w, s)
    ensures Matches(lines, Next(EmitAll(lines), target, choice, w), NextLine(lines, target, choice, s))
  {
    EmittedLength(lines);
    if s.pc < |lines| {
      var line := lines[s.pc];
      HeadHolds(lines, s.pc);
      DecodeHeld(EmitAll(lines), w.pc, line);
      HeadsAscend(lines, s.pc, |lines|);
      if s.status == Running && s.fuel > 0 {
        EffectMatches(lines, target, choice, w, s);
      }
    }
  }

  lemma EffectMatches(lines: seq<Line>, target: Target, choice: Choice, w: Control, s: Control)
    requires BranchesToLines(lines, target)
    requires Matches(lines, w, s) && s.pc < |lines| && s.fuel > 0
    ensures var line := lines[s.pc];
            var goal := if IsBranch(line.opcode) then LineAt(lines, Goal(lines, target, s.pc)) else 0;
            Matches(lines, Effect(line.opcode, Goal(lines, target, s.pc), w.pc + line.Width(), choice, w),
                    Effect(line.opcode, goal, s.pc + 1, choice, s))
  {
    var line := lines[s.pc];
    assert Head(lines, s.pc + 1) == w.pc + line.Width();
    if line.opcode == RET && s.calls != [] {
      var n := |s.calls| - 1;
      assert CallMatches(lines, w.calls[n], s.calls[n]);
      assert Head(lines, s.calls[n] + 1) == w.calls[n] + 1;
    }
  }

  /**
   * Two-word encoding is invisible to control flow: when branches lead to lines, every run over the
   * words is, step for step, the run over the source lines.
   */
  lemma {:induction false} RunMatches(lines: seq<Line>, target: Target, choices: seq<Choice>, w: Control, s: Control)
    requires Assembled(lines) && BranchesToLines(lines, target)
    requires Matches(lines, w, s)
    ensures Matches(lines, Run(EmitAll(lines), target, choices, w), RunLines(lines, target, choices, s))
  {
    if choices != [] {
      var n := |choices| - 1;
      RunMatches(lines, target, choices[..n], w, s);
      NextMatches(lines, target, choices[n],
                  Run(EmitAll(lines), target, choices[..n], w), RunLines(lines, target, choices[..n], s));
    }
  }

  /** In such a run pc never rests on an extension word. */
  lemma {:induction false} PcStaysOnHeads(lines: seq<Line>, target: Target, choices: seq<Choice>, fuel: nat)
    requires Assembled(lines) && BranchesToLines(lines, target)
    ensures var c := Run(EmitAll(lines), target, choices, Control(0, [], fuel, Running));
            !IsTombstone(lines, c.pc) && (IsHead(lines, c.pc) || c.pc == |EmitAll(lines)|)
  {
    var start := Control(0, [], fuel, Running);
    RunMatches(lines, target, choices, start, start);
    var c, s := Run(EmitAll(lines), target, choices, start), RunLines(lines, target, choices, start);
    EmittedLength(lines);
    BoundaryIsNoTombstone(lines, s.pc);
  }

  /** A running machine at the start of a line whose saved positions are those of calls. */
  ghost predicate AtLine(lines: seq<Line>, c: Control) {
    && c.status == Running && IsHead(lines, c.pc)
    && forall k :: 0 <= k < |c.calls| ==> exists i: nat :: CallMatches(lines, c.calls[k], i)
  }

  /**
   * The exact condition for one step never to land inside a two-word line: no branch leads there.
   */
  lemma LandsInsideExactlyByBranch(lines: seq<Line>, target: Target)
    requires Assembled(lines)
    ensures (forall choice, c :: AtLine(lines, c) ==> !IsTombstone(lines, Next(EmitAll(lines), target, choice, c).pc))
       <==> (forall i: nat :: i < |lines| && IsBranch(lines[i].opcode) ==> !IsTombstone(lines, Goal(lines, target, i)))
  {
    if i: nat :| i < |lines| && IsBranch(lines[i].opcode) && IsTombstone(lines, Goal(lines, target, i)) {
      var c := Control(Head(lines, i), [], 1, Running);
      HeadHolds(lines, i);
      DecodeHeld(EmitAll(lines), Head(lines, i), lines[i]);
      assert AtLine(lines, c);
      assert IsTombstone(lines, Next(EmitAll(lines), target, Choice(true, None), c).pc);
    } else {
      forall choice, c | AtLine(lines, c) ensures !IsTombstone(lines, Next(EmitAll(lines), target, choice, c).pc) {
        LandsAtBoundary(lines, target, choice, c);
      }
    }
  }

  lemma PcMoves(opcode: nat, goal: nat, next: nat, choice: Choice, c: Control)
    requires c.fuel > 0
    ensures var pc := Effect(opcode, goal, next, choice, c).pc;
            || pc == c.pc || pc == next || (IsBranch(opcode) && pc == goal)
            || (c.calls != [] && pc == c.calls[|c.calls| - 1] + 1)
  {
  }

  lemma ResumesAtBoundary(lines: seq<Line>, c: Control)
    requires AtLine(lines, c) && c.calls != []
    ensures !IsTombstone(lines, c.calls[|c.calls| - 1] + 1)
  {
    var saved := c.calls[|c.calls| - 1];
    var k: nat :| CallMatches(lines, saved, k);
    assert Head(lines, k + 1) == saved + 1;
    BoundaryIsNoTombstone(lines, k + 1);
  }

  lemma LandsAtBoundary(lines: seq<Line>, target: Target, choice: Choice, c: Control)
    requires Assembled(lines) && AtLine(lines, c)
    requires forall i: nat :: i < |lines| && IsBranch(lines[i].opcode) ==> !IsTombstone(lines, Goal(lines, target, i))
    ensures !IsTombstone(lines, Next(EmitAll(lines), target, choice, c).pc)
  {
    var i: nat :| i < |lines| && Head(lines, i) == c.pc;
    BoundaryIsNoTombstone(lines, i);
    if c.fuel > 0 {
      LandsFromLine(lines, target, choice, c, i);
    }
  }

  lemma {:induction false} LandsFromLine(lines: seq<Line>, target: Target, choice: Choice, c: Control, i: nat)
    requires Assembled(lines) && AtLine(lines, c) && c.fuel > 0 && i < |lines| && Head(lines, i) == c.pc
    requires IsBranch(lines[i].opcode) ==> !IsTombstone(lines, Goal(lines, target, i))
    ensures !IsTombstone(lines, Next(EmitAll(lines), target, choice, c).pc)
  {
    NextAtHead(lines, target, choice, c, i);
    BoundaryIsNoTombstone(lines, i);
    BoundaryIsNoTombstone(lines, i + 1);
    if c.calls != [] {
      ResumesAtBoundary(lines, c);
    }
    PcMoves(lines[i].opcode, Goal(lines, target, i), Head(lines, i + 1), choice, c);
  }

  lemma {:induction false} NextAtHead(lines: seq<Line>, target: Target, choice: Choice, c: Control, i: nat)
    requires Assembled(lines) && i < |lines| && Head(lines, i) == c.pc
    requires c.status == Running && c.fuel > 0
    ensures Next(EmitAll(lines), target, choice, c)
         == Effect(lines[i].opcode, Goal(lines, target, i), c.pc + lines[i].Width(), choice, c)
  {
    HeadHolds(lines, i);
    DecodeHeld(EmitAll(lines), c.pc, lines[i]);
  }

  lemma {:induction false} BoundaryIsNoTombstone(lines: seq<Line>, j: nat)
    requires j <= |lines|
    ensures !IsTombstone(lines, Head(lines, j))
  {
    if j < |lines| {
      NoTombstoneAtHead(lines, j);
    } else {
      forall i: nat | i < |lines| && lines[i].Extended() ensures Head(lines, i) + 1 != Head(lines, j) {
        HeadsAscend(lines, i, j);
      }
    }
  }

  // ---- What one step does, opcode by opcode (section 6.5) ----

  /** About to execute source line i, with fuel to pay for it. */
  predicate Executes(lines: seq<Line>, c: Control, i: nat) {
    Assembled(lines) && i < |lines| && c.pc == Head(lines, i) && c.status == Running && c.fuel > 0
  }

  /** OP_JMP always goes to its target. */
  lemma JumpGoes(lines: seq<Line>, target: Target, choice: Choice, c: Control, i: nat)
    requires Executes(lines, c, i) && choice.fault.None? && lines[i].opcode == 0x50
    ensures Next(EmitAll(lines), target, choice, c) == Control(Goal(lines, target, i), c.calls, c.fuel - 1, Running)
  {
    NextAtHead(lines, target, choice, c, i);
  }

  /** OP_JZ, OP_JNZ and OP_LOOP_DECR go to their target when taken, and else to the next line. */
  lemma {:induction false} BranchGoes(lines: seq<Line>, target: Target, choice: Choice, c: Control, i: nat)
    requires Executes(lines, c, i) && choice.fault.None? && 0x51 <= lines[i].opcode <= 0x53
    ensures Next(EmitAll(lines), target, choice, c)
         == Control(if choice.taken then Goal(lines, target, i) else Head(lines, i + 1), c.calls, c.fuel - 1, Running)
  {
    NextAtHead(lines, target, choice, c, i);
  }

  /** OP_CALL saves pc and goes to its target, unless eight calls are open. */
  lemma CallGoes(lines: seq<Line>, target: Target, choice: Choice, c: Control, i: nat)
    requires Executes(lines, c, i) && choice.fault.None? && lines[i].opcode == 0x55
    ensures Next(EmitAll(lines), target, choice, c)
         == if |c.calls| < 8 then Control(Goal(lines, target, i), c.calls + [c.pc], c.fuel - 1, Running)
            else Control(c.pc, c.calls, c.fuel - 1, StackOverflow)
  {
    NextAtHead(lines, target, choice, c, i);
  }

  /** OP_RET resumes after the call saved last. */
  lemma ReturnGoes(lines: seq<Line>, target: Target, choice: Choice, c: Control, i: nat, calls: seq<nat>, saved: nat)
    requires Executes(lines, c, i) && choice.fault.None? && lines[i].opcode == 0x56 && c.calls == calls + [saved]
    ensures Next(EmitAll(lines), target, choice, c) == Control(saved + 1, calls, c.fuel - 1, Running)
  {
    NextAtHead(lines, target, choice, c, i);
  }

  /** OP_RET with no call open stops the run. */
  lemma ReturnUnderflows(lines: seq<Line>, target: Target, choice: Choice, c: Control, i: nat)
    requires Executes(lines, c, i) && choice.fault.None? && lines[i].opcode == 0x56 && c.calls == []
    ensures Next(EmitAll(lines), target, choice, c) == Control(c.pc, [], c.fuel - 1, StackUnderflow)
  {
    NextAtHead(lines, target, choice, c, i);
  }

  /** Every other instruction that does not fault goes on to the next line. */
  lemma {:induction false} OthersGoOn(lines: seq<Line>, target: Target, choice: Choice, c: Control, i: nat)
    requires Executes(lines, c, i) && choice.fault.None?
    requires lines[i].opcode !in {0x00, 0x50, 0x51, 0x52, 0x53, 0x55, 0x56}
    ensures Next(EmitAll(lines), target, choice, c) == Control(Head(lines, i + 1), c.calls, c.fuel - 1, Running)
  {
    NextAtHead(lines, target, choice, c, i);
  }

  /** OP_HALT ends the run normally; a fault ends it with its own code, at the instruction that faulted. */
  lemma HaltsAndFaults(lines: seq<Line>, target: Target, choice: Choice, c: Control, i: nat)
    requires Executes(lines, c, i)
    ensures lines[i].opcode == 0x00 ==>
              Next(EmitAll(lines), target, choice, c) == Control(c.pc, c.calls, c.fuel - 1, Ok)
    ensures lines[i].opcode != 0x00 ==> forall code :: choice.fault == Some(code) ==>
              Next(EmitAll(lines), target, choice, c) == Control(c.pc, c.calls, c.fuel - 1, Fault(code))
  {
    NextAtHead(lines, target, choice, c, i);
  }

  /** Without fuel, and past the last word, nothing executes. */
  lemma {:induction false} NothingToExecute(lines: seq<Line>, target: Target, choice: Choice, c: Control)
    requires c.status == Running
    ensures c.fuel == 0 ==> Next(EmitAll(lines), target, choice, c) == c.(status := GasExhausted)
    ensures c.fuel > 0 && c.pc >= Head(lines, |lines|) ==>
              Next(EmitAll(lines), target, choice, c) == c.(status := OutOfBounds)
  {
    EmittedLength(lines);
  }

  // ---- Over whole runs ----

  ghost predicate IsCall(lines: seq<Line>, word: nat) {
    exists i: nat :: CallMatches(lines, word, i)
  }

  /** Every saved position is that of a call. */
  ghost predicate CallsSaved(lines: seq<Line>, c: Control) {
    forall saved :: saved in c.calls ==> IsCall(lines, saved)
  }

  /** Line i never falls through, and no branch leads to the line after it. */
  ghost predicate CutOff(lines: seq<Line>, target: Target, i: nat) {
    && Assembled(lines) && i + 1 < |lines| && lines[i].opcode in {0x00, 0x50, 0x56}
    && forall j: nat :: j < |lines| && lines[j].opcode in {0x50, 0x51, 0x52, 0x53, 0x55} ==>
         Goal(lines, target, j) != Head(lines, i + 1)
  }

  lemma {:induction false} SameHead(lines: seq<Line>, i: nat, j: nat)
    requires i <= |lines| && j <= |lines| && Head(lines, i) == Head(lines, j)
    ensures i == j
  {
    if i < j {
      HeadsAscend(lines, i, j);
    } else if j < i {
      HeadsAscend(lines, j, i);
    }
  }

  /** A return never resumes at a line that only a call could precede. */
  lemma {:induction false} ResumesElsewhere(lines: seq<Line>, target: Target, c: Control, i: nat)
    requires CutOff(lines, target, i) && CallsSaved(lines, c) && c.calls != []
    ensures c.calls[|c.calls| - 1] + 1 != Head(lines, i + 1)
  {
    var saved := c.calls[|c.calls| - 1];
    assert IsCall(lines, saved);
    var k: nat :| CallMatches(lines, saved, k);
    assert Head(lines, k + 1) == saved + 1;
    if Head(lines, k + 1) == Head(lines, i + 1) {
      SameHead(lines, k + 1, i + 1);
    }
  }

  lemma {:induction false} CutOffStep(lines: seq<Line>, target: Target, choice: Choice, c: Control, i: nat, j: nat)
    requires CutOff(lines, target, i) && CallsSaved(lines, c) && Executes(lines, c, j) && j != i + 1
    ensures Next(EmitAll(lines), target, choice, c).pc != Head(lines, i + 1)
  {
    NextAtHead(lines, target, choice, c, j);
    var op, goal, next := lines[j].opcode, Goal(lines, target, j), Head(lines, j + 1);
    PcMoves(op, goal, next, choice, c);
    if c.pc == Head(lines, i + 1) {
      SameHead(lines, j, i + 1);
    }
    if next == Head(lines, i + 1) {
      SameHead(lines, j + 1, i + 1);
    }
    if c.calls != [] {
      ResumesElsewhere(lines, target, c, i);
    }
  }

  lemma CallsStaySaved(lines: seq<Line>, target: Target, choice: Choice, c: Control, j: nat)
    requires CallsSaved(lines, c) && Executes(lines, c, j)
    ensures CallsSaved(lines, Next(EmitAll(lines), target, choice, c))
  {
    NextAtHead(lines, target, choice, c, j);
    if lines[j].opcode == CALL {
      assert CallMatches(lines, c.pc, j);
    }
    StackMoves(EmitAll(lines), target, choice, c);
  }

  /** Off the heads nothing executes. */
  lemma OffHeads(lines: seq<Line>, target: Target, choice: Choice, c: Control)
    requires Assembled(lines) && !(exists j: nat :: Executes(lines, c, j))
    ensures var after := Next(EmitAll(lines), target, choice, c); after.pc == c.pc && after.calls == c.calls
  {
    if c.status == Running && c.fuel > 0 {
      DecodesExactlyAtHeads(lines, c.pc);
      if IsHead(lines, c.pc) {
        var j: nat :| j < |lines| && Head(lines, j) == c.pc;
        assert Executes(lines, c, j);
      }
    }
  }

  /**
   * A line after a jump, return or halt that no branch targets is never executed: in no run from the start
   * does pc ever stand on it.
   */
  lemma {:induction false} CutOffNeverRuns(lines: seq<Line>, target: Target, choices: seq<Choice>, fuel: nat, i: nat)
    requires CutOff(lines, target, i)
    ensures var c := Run(EmitAll(lines), target, choices, Control(0, [], fuel, Running));
            c.pc != Head(lines, i + 1) && CallsSaved(lines, c)
  {
    if choices == [] {
      HeadsAscend(lines, i, i + 1);
    } else {
      var init, last := choices[..|choices| - 1], choices[|choices| - 1];
      CutOffNeverRuns(lines, target, init, fuel, i);
      var c := Run(EmitAll(lines), target, init, Control(0, [], fuel, Running));
      if j: nat :| Executes(lines, c, j) {
        CutOffStep(lines, target, last, c, i, j);
        CallsStaySaved(lines, target, last, c, j);
      } else {
        OffHeads(lines, target, last, c);
      }
    }
  }

  lemma FullPrefix(s: seq<nat>, t: seq<nat>)
    requires |s| == |t| && s[..|t|] == t[..|t|]
    ensures s == t
  {
  }

  /**
   * A call whose body reaches a return with its frame still open goes on, running, at the line after the
   * call with the caller's stack.
   */
  lemma {:induction false} CallReturns(lines: seq<Line>, target: Target, call: Choice, body: seq<Choice>,
                                       ret: Choice, c: Control, start: Control, before: Control, i: nat, j: nat)
    requires Executes(lines, c, i) && lines[i].opcode == 0x55 && |c.calls| < 8 && call.fault.None?
    requires start == Next(EmitAll(lines), target, call, c)
    requires forall n :: 0 <= n <= |body| ==> |Run(EmitAll(lines), target, body[..n], start).calls| > |c.calls|
    requires before == Run(EmitAll(lines), target, body, start)
    requires Executes(lines, before, j) && lines[j].opcode == 0x56 && ret.fault.None?
    requires |before.calls| == |c.calls| + 1
    ensures Next(EmitAll(lines), target, ret, before) == Control(Head(lines, i + 1), c.calls, before.fuel - 1, Running)
  {
    CallGoes(lines, target, call, c, i);
    FramesKept(EmitAll(lines), target, body, start, |c.calls|);
    FullPrefix(before.calls, start.calls);
    ReturnGoes(lines, target, ret, before, j, c.calls, c.pc);
  }
}
