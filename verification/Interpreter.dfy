/** Running emitted words: fetch, decode, perform on the register machine, advance the control state. */
module Interpreter {
  import opened Bytes
  import opened Instructions
  import opened Operands
  import opened Options
  import Binary
  import Execution
  import Graphs
  import InlineData
  import LaneWalks
  import Machine

  /** What the opcodes below read and write. */
  datatype Store = Store(registers: seq<Machine.Value>, zf: bool, relations: map<nat, Graphs.Csr>) {

    function With(dst: nat, v: Machine.Value): Store
      requires dst < |registers|
    {
      this.(registers := registers[dst := v])
    }

    predicate LaneAt(i: nat)
      requires |registers| == Machine.REGISTERS
    {
      i < Machine.REGISTERS && registers[i].LaneFrontier?
    }
  }

  ghost function StoreOf(vm: Machine.Vm): Store
    reads vm
  {
    Store(vm.registers, vm.zf, vm.relations)
  }

  /** The modelled opcodes with their operands unpacked. */
  datatype Op =
    | Halt
    | Branch
    | InitGraph(slot: nat, at: nat, n: nat)
    | LoadSet(dst: nat, at: nat, n: nat)
    | LoadInt(dst: nat, n: nat)
    | InitSeeds(dst: nat, src: nat, count: nat, flags: nat)
    | SetEdges(dst: nat, src: nat, edges: nat, rel: nat, flags: nat)
    | Walk(dst: nat, src: nat, rel: nat, flags: nat, reverse: bool)
    | Islanded(dst: nat, src: nat, maxNodes: nat)
    | Other

  /** Operands by the documented layout of each opcode. */
  function OpOf(d: Decoded): Op {
    if d.dst < 0 || d.flags < 0 then Other
    else
      var halves, fields := Unpack(d.payload, HALVES), Unpack(d.payload, BYTES_AND_HALF);
      if d.opcode == 0x00 then Halt
      else if d.opcode in {0x50, 0x51, 0x52, 0x55, 0x56} then Branch
      else if d.opcode == 0x04 && d.flags == 0 then LoadInt(d.dst, d.payload)
      else if d.opcode == 0x09 then InitGraph(d.dst, halves[0], halves[1])
      else if d.opcode == 0x0A then LoadSet(d.dst, halves[0], halves[1])
      else if d.opcode == 0xC0 then InitSeeds(d.dst, halves[0], halves[1], d.flags)
      else if d.opcode == 0xC2 then SetEdges(d.dst, fields[0], fields[1], fields[2], d.flags)
      else if d.opcode == 0xC3 then Walk(d.dst, halves[0], halves[1], d.flags, false)
      else if d.opcode == 0xC4 then Walk(d.dst, halves[0], halves[1], d.flags, true)
      else if d.opcode == 0xC7 && d.flags == 1 then Islanded(d.dst, halves[0], halves[1])
      else Other
  }

  /** JZ is taken when ZF is set, JNZ when it is clear. */
  predicate Taken(d: Decoded, zf: bool) {
    if d.opcode == 0x51 then zf else d.opcode == 0x52 && !zf
  }

  /** A bit set loaded from data holds the node IDs listed there. */
  function SetOf(words: seq<nat>): set<nat> {
    set w | w in words
  }

  const OUT_OF_BOUNDS := 2
  const INVALID_REGISTER := 6

  /** Stops the run at an instruction that is not performed here. */
  const NOT_PERFORMED := 0x100

  // ---- Performing one instruction ----

  /** The error code op stops with in state s, if any. */
  function Fault(op: Op, data: seq<byte>, nodes: nat, s: Store): Option<nat>
    requires |s.registers| == Machine.REGISTERS
  {
    match op
    case Halt => None
    case Branch => None
    case InitGraph(_, at, n) =>
      var g := InlineData.ReadGraph(data, at, n);
      if g.Some? && g.value.Valid() && g.value.NodeCount() == nodes then None else Some(OUT_OF_BOUNDS)
    case LoadSet(dst, at, n) =>
      if InlineData.ReadWords(data, at, n).None? then Some(OUT_OF_BOUNDS)
      else if dst >= Machine.REGISTERS then Some(INVALID_REGISTER) else None
    case LoadInt(dst, _) => if dst >= Machine.REGISTERS then Some(INVALID_REGISTER) else None
    case InitSeeds(dst, src, count, flags) =>
      if dst >= Machine.REGISTERS || src >= Machine.REGISTERS || !s.registers[src].CanSeed() then Some(INVALID_REGISTER)
      else if !s.registers[src].SeedsBelow(flags, count, nodes) then Some(OUT_OF_BOUNDS) else None
    case SetEdges(dst, src, edges, _, flags) =>
      if dst >= Machine.REGISTERS || !s.LaneAt(src) || edges >= Machine.REGISTERS
         || s.registers[edges].Cuts(flags).None? then Some(INVALID_REGISTER)
      else if exists c :: c in s.registers[edges].Cuts(flags).value && c.0 >= 64 then Some(OUT_OF_BOUNDS) else None
    case Walk(dst, src, rel, _, _) =>
      if dst >= Machine.REGISTERS || !s.LaneAt(src) then Some(INVALID_REGISTER)
      else if rel !in s.relations then Some(OUT_OF_BOUNDS) else None
    case Islanded(dst, src, _) =>
      if dst >= Machine.REGISTERS || !s.LaneAt(src) then Some(INVALID_REGISTER) else None
    case Other => Some(NOT_PERFORMED)
  }

  /** t is what op leaves of s when it does not fault. */
  ghost predicate Done(op: Op, data: seq<byte>, nodes: nat, s: Store, t: Store)
    requires |s.registers| == Machine.REGISTERS && Fault(op, data, nodes, s).None?
  {
    match op
    case Halt => t == s
    case Branch => t == s
    case InitGraph(slot, at, n) => t == s.(relations := s.relations[slot := InlineData.ReadGraph(data, at, n).value])
    case LoadSet(dst, at, n) =>
      t == s.With(dst, Machine.Bitset(SetOf(InlineData.ReadWords(data, at, n).value)))
    case LoadInt(dst, n) => t == s.With(dst, Machine.Int64(n))
    case InitSeeds(dst, src, count, flags) =>
      && OnlyFrontier(s, t, dst) && t.registers[dst].frontier.Valid(nodes)
      && exists seeds :: Machine.Seeded(t.registers[dst].frontier, s.registers[src], flags, count, seeds)
    case SetEdges(dst, src, edges, rel, flags) =>
      && OnlyFrontier(s, t, dst)
      && EdgesSet(s.registers[src].frontier, t.registers[dst].frontier, rel, s.registers[edges].Cuts(flags).value)
    case Walk(dst, src, rel, flags, reverse) =>
      && OnlyFrontier(s, t, dst) && s.relations[rel].Valid()
      && Machine.LaneWalked(s.relations[rel], rel, flags, reverse, s.registers[src].frontier, t.registers[dst].frontier)
    case Islanded(dst, src, maxNodes) =>
      && Only(s, t, dst) && t.registers[dst].Int64?
      && MissesSome(s.registers[src].frontier, nodes, maxNodes, t.registers[dst].n)
      && (t.zf <==> t.registers[dst].n == 0)
    case Other => false
  }

  // ---- What the words say ----

  lemma HalvesOf(a: nat, b: nat)
    requires a < 0x1_0000 && b < 0x1_0000
    ensures Unpack(a + b * 0x1_0000, HALVES) == [a, b]
  {
    Binary.Pow2Values();
    DocumentedLayouts();
    PairLayouts(a, b);
    Unpacked([a, b], HALVES, a + b * 0x1_0000);
  }

  lemma FieldsFit(a: nat, b: nat, c: nat)
    requires a < 0x100 && b < 0x100 && c < 0x1_0000
    ensures Fits([a, b, c], BYTES_AND_HALF)
  {
    Binary.Pow2Values();
  }

  lemma {:induction false} FieldsPacked(a: nat, b: nat, c: nat, layout: Layout)
    requires a < 0x100 && b < 0x100 && c < 0x1_0000 && layout == BYTES_AND_HALF
    ensures Fits([a, b, c], layout) && Disjoint(layout)
    ensures Pack([a, b, c], layout) == a + b * 0x100 + c * 0x1_0000
  {
    FieldsFit(a, b, c);
    DocumentedLayouts();
    BytesThenHalf(a, b, c);
  }

  lemma PackedFields(a: nat, b: nat, c: nat, layout: Layout, payload: nat)
    requires a < 0x100 && b < 0x100 && c < 0x1_0000 && layout == BYTES_AND_HALF
    requires payload == a + b * 0x100 + c * 0x1_0000
    ensures Unpack(payload, layout) == [a, b, c]
  {
    FieldsPacked(a, b, c, layout);
    Unpacked([a, b, c], layout, payload);
  }

  lemma FieldsOf(a: nat, b: nat, c: nat)
    requires a < 0x100 && b < 0x100 && c < 0x1_0000
    ensures Unpack(a + b * 0x100 + c * 0x1_0000, BYTES_AND_HALF) == [a, b, c]
  {
    PackedFields(a, b, c, BYTES_AND_HALF, a + b * 0x100 + c * 0x1_0000);
  }

  /** Opcodes whose payload is a low and a high half. */
  lemma HalvesWords(flags: nat, dst: nat, a: nat, b: nat)
    requires a < 0x1_0000 && b < 0x1_0000
    ensures OpOf(Decoded(0x09, flags, dst, a + b * 0x1_0000)) == InitGraph(dst, a, b)
    ensures OpOf(Decoded(0x0A, flags, dst, a + b * 0x1_0000)) == LoadSet(dst, a, b)
    ensures OpOf(Decoded(0xC0, flags, dst, a + b * 0x1_0000)) == InitSeeds(dst, a, b, flags)
    ensures OpOf(Decoded(0xC3, flags, dst, a + b * 0x1_0000)) == Walk(dst, a, b, flags, false)
    ensures OpOf(Decoded(0xC4, flags, dst, a + b * 0x1_0000)) == Walk(dst, a, b, flags, true)
    ensures OpOf(Decoded(0xC7, 1, dst, a + b * 0x1_0000)) == Islanded(dst, a, b)
  {
    HalvesOf(a, b);
  }

  /** SET_EDGE_MASK packs two bytes and a half; an integer load takes its whole payload. */
  lemma OtherWords(flags: nat, dst: nat, src: nat, edges: nat, rel: nat, n: nat)
    requires src < 0x100 && edges < 0x100 && rel < 0x1_0000
    ensures OpOf(Decoded(0xC2, flags, dst, src + edges * 0x100 + rel * 0x1_0000))
         == SetEdges(dst, src, edges, rel, flags)
    ensures OpOf(Decoded(0x04, 0, dst, n)) == LoadInt(dst, n)
    ensures OpOf(Decoded(0x00, flags, dst, n)) == Halt
  {
    FieldsOf(src, edges, rel);
  }

  /** Besides ZF, nothing changes but register dst. */
  ghost predicate Only(s: Store, t: Store, dst: nat)
    requires |s.registers| == Machine.REGISTERS
  {
    && dst < Machine.REGISTERS == |t.registers|
    && t.registers == s.registers[dst := t.registers[dst]] && t.relations == s.relations
  }

  ghost predicate OnlyFrontier(s: Store, t: Store, dst: nat)
    requires |s.registers| == Machine.REGISTERS
  {
    Only(s, t, dst) && t.registers[dst].LaneFrontier?
  }

  /** g is f with the listed (lane, edge) pairs tripped. */
  ghost predicate EdgesSet(f: LaneWalks.Frontier, g: LaneWalks.Frontier, rel: nat, cuts: seq<(nat, nat)>) {
    && g.k == f.k && g.lanes == f.lanes
    && forall r: nat, e: nat, b: nat :: LaneWalks.TripMask(g.trips, r, e).Bit(b) <==>
         LaneWalks.TripMask(f.trips, r, e).Bit(b) || (r == rel && (b, e) in cuts)
  }

  /** The bits of m are the active lanes that miss some checked node. */
  ghost predicate MissesSome(f: LaneWalks.Frontier, nodes: nat, maxNodes: nat, m: nat) {
    forall b: nat :: Binary.Bit(m, b) <==>
      b < f.k && exists u :: 0 <= u < nodes && (maxNodes == 0 || u < maxNodes) && u !in f.Nodes(b)
  }

  /** s becomes t under op: a fault changes nothing. */
  ghost predicate Performed(op: Op, data: seq<byte>, nodes: nat, s: Store, t: Store)
    requires |s.registers| == Machine.REGISTERS
  {
    if Fault(op, data, nodes, s).Some? then t == s else Done(op, data, nodes, s, t)
  }

  /** Register operands that do not exist or hold the wrong type. */
  ghost predicate WrongOperand(op: Op, s: Store)
    requires |s.registers| == 64
  {
    match op
    case LoadSet(dst, _, _) => dst >= 64
    case LoadInt(dst, _) => dst >= 64
    case InitSeeds(dst, src, _, _) => dst >= 64 || src >= 64 || s.registers[src].LaneFrontier?
    case SetEdges(dst, src, edges, _, _) =>
      || dst >= 64 || src >= 64 || !s.registers[src].LaneFrontier?
      || edges >= 64 || s.registers[edges].Bitset? || s.registers[edges].LaneFrontier?
    case Walk(dst, src, _, _, _) => dst >= 64 || src >= 64 || !s.registers[src].LaneFrontier?
    case Islanded(dst, src, _) => dst >= 64 || src >= 64 || !s.registers[src].LaneFrontier?
    case _ => false
  }

  /** Node u is among those a lane initialisation from v would seed; a bit set counts whole. */
  ghost predicate WouldSeed(v: Machine.Value, flags: nat, count: nat, u: nat) {
    var run := if flags % 2 == 1 && count > 1 then if count < 64 then count else 64 else 1;
    var lanes := if flags % 2 == 0 then 1 else if count == 0 then 8 else if count < 64 then count else 64;
    match v
    case Bitset(s) => u in s
    case NodeVector(ids) => exists i :: 0 <= i < |ids| && i < 64 && ids[i] == u
    case NodeId(first) => first <= u < first + run
    case Int64(first) => first <= u < first + run
    case Null => u < lanes
    case LaneFrontier(_) => false
  }

  /** Seeding is in bounds exactly when every seeded node is a node. */
  lemma SeedsInBounds(v: Machine.Value, flags: nat, count: nat, nodes: nat)
    ensures v.SeedsBelow(flags, count, nodes) <==> forall u: nat :: WouldSeed(v, flags, count, u) ==> u < nodes
  {
    if forall u: nat :: WouldSeed(v, flags, count, u) ==> u < nodes {
      match v {
        case NodeVector(ids) =>
          forall i | 0 <= i < |ids| && i < 64 ensures ids[i] < nodes {
            assert WouldSeed(v, flags, count, ids[i]);
          }
        case NodeId(first) =>
          assert WouldSeed(v, flags, count, first + Machine.RunLength(flags, count) - 1);
        case Int64(first) =>
          assert WouldSeed(v, flags, count, first + Machine.RunLength(flags, count) - 1);
        case Null =>
          assert WouldSeed(v, flags, count, (if flags % 2 == 1 then Machine.DefaultLanes(count) else 1) - 1);
        case Bitset(s) =>
          forall x | x in s ensures x < nodes {
            assert WouldSeed(v, flags, count, x);
          }
        case LaneFrontier(_) =>
      }
    }
  }

  /** Code 6 stands for a wrong register operand; code 2 for data, nodes, lanes or relations out of bounds. */
  lemma FaultCodes(op: Op, data: seq<byte>, nodes: nat, s: Store)
    requires |s.registers| == Machine.REGISTERS && !op.Other?
    ensures Fault(op, data, nodes, s).Some? ==> Fault(op, data, nodes, s).value in {2, 6}
    ensures !op.LoadSet? ==> (Fault(op, data, nodes, s) == Some(6) <==> WrongOperand(op, s))
    ensures op.Walk? && !WrongOperand(op, s) ==> (Fault(op, data, nodes, s) == Some(2) <==> op.rel !in s.relations)
    ensures op.InitSeeds? && !WrongOperand(op, s) ==> (Fault(op, data, nodes, s) == Some(2) <==>
              exists u: nat :: WouldSeed(s.registers[op.src], op.flags, op.count, u) && u >= nodes)
    ensures op.LoadSet? && !WrongOperand(op, s) ==>
              (Fault(op, data, nodes, s) == Some(2) <==> op.at + 4 * op.n > |data|)
    ensures op.InitGraph? ==> (Fault(op, data, nodes, s).None? <==>
              exists g :: InlineData.ReadGraph(data, op.at, op.n) == Some(g) && g.Valid() && g.NodeCount() == nodes)
  {
    if op.InitSeeds? && !WrongOperand(op, s) {
      SeedsInBounds(s.registers[op.src], op.flags, op.count, nodes);
    }
    if op.SetEdges? && !WrongOperand(op, s) {
      Machine.CutsTrip(s.registers[op.edges], op.flags);
    }
  }

  /**
   * A one-step walk word, in either direction: lane b of dst holds v exactly when an edge not tripped in
   * lane b leads there, read from row to target by 0xC3 and from target to row by 0xC4.
   */
  lemma {:induction false} WalkWord(data: seq<byte>, nodes: nat, s: Store, t: Store, reverse: bool,
                                    dst: nat, src: nat, rel: nat, b: nat, v: nat)
    requires |s.registers| == Machine.REGISTERS && src < 0x1_0000 && rel < 0x1_0000
    requires var op := OpOf(Decoded(if reverse then 0xC4 else 0xC3, 0, dst, src + rel * 0x1_0000));
             Fault(op, data, nodes, s).None? && Performed(op, data, nodes, s, t)
    requires s.LaneAt(src) && b < s.registers[src].frontier.k
    ensures dst < |t.registers| && t.registers[dst].LaneFrontier? && rel in s.relations && s.relations[rel].Valid()
    ensures var g, from := s.relations[rel], s.registers[src].frontier;
            v in t.registers[dst].frontier.Nodes(b) <==>
              exists e :: 0 <= e < g.EdgeCount() && !LaneWalks.TripMask(from.trips, rel, e).Bit(b)
                          && if reverse then g.Row(e) == v && g.targets[e] in from.Nodes(b)
                             else g.targets[e] == v && g.Row(e) in from.Nodes(b)
  {
    HalvesWords(0, dst, src, rel);
  }

  method PerformLoad(vm: Machine.Vm, data: seq<byte>, op: Op) returns (fault: Option<nat>)
    requires vm.Valid() && (op.InitGraph? || op.LoadSet? || op.LoadInt?)
    modifies vm
    ensures vm.Valid() && fault == Fault(op, data, vm.nodes, old(StoreOf(vm)))
    ensures Performed(op, data, vm.nodes, old(StoreOf(vm)), StoreOf(vm))
  {
    fault := None;
    match op {
      case InitGraph(slot, at, n) =>
        var g := InlineData.ReadGraph(data, at, n);
        if g.None? || !g.value.Valid() || g.value.NodeCount() != vm.nodes {
          return Some(OUT_OF_BOUNDS);
        }
        vm.InitMockGraph(slot, g.value);
      case LoadSet(dst, at, n) =>
        var words := InlineData.ReadWords(data, at, n);
        if words.None? {
          return Some(OUT_OF_BOUNDS);
        }
        var status := vm.Load(dst, Machine.Bitset(SetOf(words.value)));
        fault := if status.Ok? then None else Some(INVALID_REGISTER);
      case LoadInt(dst, n) =>
        var status := vm.Load(dst, Machine.Int64(n));
        fault := if status.Ok? then None else Some(INVALID_REGISTER);
    }
  }

  method PerformSeeds(vm: Machine.Vm, data: seq<byte>, op: Op) returns (fault: Option<nat>)
    requires vm.Valid() && op.InitSeeds?
    modifies vm
    ensures vm.Valid() && fault == Fault(op, data, vm.nodes, old(StoreOf(vm)))
    ensures Performed(op, data, vm.nodes, old(StoreOf(vm)), StoreOf(vm))
  {
    if op.dst >= Machine.REGISTERS || op.src >= Machine.REGISTERS || !vm.registers[op.src].CanSeed() {
      return Some(INVALID_REGISTER);
    }
    if !vm.registers[op.src].SeedsBelow(op.flags, op.count, vm.nodes) {
      return Some(OUT_OF_BOUNDS);
    }
    var status;
    ghost var seeds;
    status, seeds := vm.LaneInitSeeds(op.dst, op.src, op.flags, op.count);
    fault := None;
  }

  method PerformEdges(vm: Machine.Vm, data: seq<byte>, op: Op) returns (fault: Option<nat>)
    requires vm.Valid() && op.SetEdges?
    modifies vm
    ensures vm.Valid() && fault == Fault(op, data, vm.nodes, old(StoreOf(vm)))
    ensures Performed(op, data, vm.nodes, old(StoreOf(vm)), StoreOf(vm))
  {
    if op.dst >= Machine.REGISTERS || !vm.LaneAt(op.src) || op.edges >= Machine.REGISTERS
       || vm.registers[op.edges].Cuts(op.flags).None? {
      return Some(INVALID_REGISTER);
    }
    var cuts := vm.registers[op.edges].Cuts(op.flags).value;
    if exists c :: c in cuts && c.0 >= 64 {
      return Some(OUT_OF_BOUNDS);
    }
    var status := vm.LaneSetEdgeMask(op.dst, op.src, op.edges, op.rel, op.flags);
    fault := None;
  }

  method PerformWalk(vm: Machine.Vm, data: seq<byte>, op: Op) returns (fault: Option<nat>)
    requires vm.Valid() && op.Walk?
    modifies vm
    ensures vm.Valid() && fault == Fault(op, data, vm.nodes, old(StoreOf(vm)))
    ensures Performed(op, data, vm.nodes, old(StoreOf(vm)), StoreOf(vm))
  {
    var status := vm.LaneWalk(op.dst, op.src, op.rel, op.flags, op.reverse);
    fault := match status
      case Ok => None
      case OutOfBounds => Some(OUT_OF_BOUNDS)
      case InvalidRegister => Some(INVALID_REGISTER);
  }

  method PerformIslanded(vm: Machine.Vm, data: seq<byte>, op: Op) returns (fault: Option<nat>)
    requires vm.Valid() && op.Islanded?
    modifies vm
    ensures vm.Valid() && fault == Fault(op, data, vm.nodes, old(StoreOf(vm)))
    ensures Performed(op, data, vm.nodes, old(StoreOf(vm)), StoreOf(vm))
  {
    var status := vm.LaneReduceIslanded(op.dst, op.src, op.maxNodes);
    fault := if status.Ok? then None else Some(INVALID_REGISTER);
  }

  method Perform(vm: Machine.Vm, data: seq<byte>, op: Op) returns (fault: Option<nat>)
    requires vm.Valid()
    modifies vm
    ensures vm.Valid() && fault == Fault(op, data, vm.nodes, old(StoreOf(vm)))
    ensures Performed(op, data, vm.nodes, old(StoreOf(vm)), StoreOf(vm))
  {
    match op {
      case Halt => fault := None;
      case Branch => fault := None;
      case InitGraph(_, _, _) => fault := PerformLoad(vm, data, op);
      case LoadSet(_, _, _) => fault := PerformLoad(vm, data, op);
      case LoadInt(_, _) => fault := PerformLoad(vm, data, op);
      case InitSeeds(_, _, _, _) => fault := PerformSeeds(vm, data, op);
      case SetEdges(_, _, _, _, _) => fault := PerformEdges(vm, data, op);
      case Walk(_, _, _, _, _) => fault := PerformWalk(vm, data, op);
      case Islanded(_, _, _) => fault := PerformIslanded(vm, data, op);
      case Other => fault := Some(NOT_PERFORMED);
    }
  }

  // ---- Whole runs ----

  /** One moment of a run. */
  datatype Moment = Moment(control: Execution.Control, store: Store)

  /** The instruction that executes next, if one can be fetched and paid for. */
  function Fetch(slots: seq<Slot>, c: Execution.Control): Option<Decoded> {
    if c.fuel == 0 || c.pc >= |slots| then None
    else
      match DecodeAt(slots, c.pc)
      case None => None
      case Some(f) => Some(f.instruction)
  }

  /** Moment n comes right after moment m. */
  ghost predicate Follows(slots: seq<Slot>, data: seq<byte>, nodes: nat, target: Execution.Target,
                          m: Moment, n: Moment)
  {
    && m.control.status == Execution.Running && |m.store.registers| == Machine.REGISTERS
    && match Fetch(slots, m.control)
       case None =>
         && n.store == m.store
         && n.control == Execution.Next(slots, target, Execution.Choice(false, None), m.control)
       case Some(d) =>
         && Performed(OpOf(d), data, nodes, m.store, n.store)
         && n.control == Execution.Next(slots, target,
                                        Execution.Choice(Taken(d, m.store.zf), Fault(OpOf(d), data, nodes, m.store)),
                                        m.control)
  }

  /** A run that has ended. */
  ghost predicate IsRun(slots: seq<Slot>, data: seq<byte>, nodes: nat, target: Execution.Target, trace: seq<Moment>) {
    && trace != [] && trace[|trace| - 1].control.status != Execution.Running
    && forall k :: 0 <= k < |trace| - 1 ==> Follows(slots, data, nodes, target, trace[k], trace[k + 1])
  }

  /** Runs emitted words until the machine stops; the trace lists every moment of the run. */
  method Interpret(vm: Machine.Vm, slots: seq<Slot>, data: seq<byte>, target: Execution.Target, budget: nat)
    returns (status: Execution.Status, ghost trace: seq<Moment>)
    requires vm.Valid()
    modifies vm
    ensures vm.Valid() && IsRun(slots, data, vm.nodes, target, trace)
    ensures trace[0] == Moment(Execution.Control(0, [], budget, Execution.Running), old(StoreOf(vm)))
    ensures trace[|trace| - 1].store == StoreOf(vm) && trace[|trace| - 1].control.status == status
  {
    var context := new Execution.Context(budget);
    trace := [Moment(context.Now(), StoreOf(vm))];
    while context.status == Execution.Running
      invariant vm.Valid() && trace != []
      invariant trace[0] == Moment(Execution.Control(0, [], budget, Execution.Running), old(StoreOf(vm)))
      invariant trace[|trace| - 1] == Moment(context.Now(), StoreOf(vm))
      invariant forall k :: 0 <= k < |trace| - 1 ==> Follows(slots, data, vm.nodes, target, trace[k], trace[k + 1])
      decreases context.fuel, context.status == Execution.Running
    {
      ghost var before := trace[|trace| - 1];
      RunOne(vm, context, slots, data, target, before);
      trace := trace + [Moment(context.Now(), StoreOf(vm))];
    }
    status := context.status;
  }

  /** Fetches, performs and advances once. */
  method RunOne(vm: Machine.Vm, context: Execution.Context, slots: seq<Slot>, data: seq<byte>,
                target: Execution.Target, ghost before: Moment)
    requires vm.Valid() && context.status == Execution.Running
    requires before == Moment(context.Now(), StoreOf(vm))
    modifies vm, context
    ensures vm.Valid() && Follows(slots, data, vm.nodes, target, before, Moment(context.Now(), StoreOf(vm)))
    ensures context.fuel <= old(context.fuel)
    ensures context.fuel == old(context.fuel) ==> context.status != Execution.Running
  {
    var taken, fault := false, None;
    if context.fuel > 0 && context.pc < |slots| {
      var fetched := DecodeAt(slots, context.pc);
      if fetched.Some? {
        taken := Taken(fetched.value.instruction, vm.zf);
        fault := Perform(vm, data, OpOf(fetched.value.instruction));
      }
    }
    context.Step(slots, target, Execution.Choice(taken, fault));
  }

  // ---- Branches in a run ----

  /** JZ and JNZ, wherever they stand in a run: one leads to the target exactly when the other goes on. */
  lemma {:induction false} ZeroBranches(lines: seq<Line>, data: seq<byte>, nodes: nat, target: Execution.Target,
                     m: Moment, n: Moment, i: nat)
    requires Execution.Executes(lines, m.control, i) && Follows(EmitAll(lines), data, nodes, target, m, n)
    requires lines[i].opcode == 0x51 || lines[i].opcode == 0x52
    ensures n.store == m.store
    ensures var goes := if lines[i].opcode == 0x51 then m.store.zf else !m.store.zf;
            n.control == Execution.Control(if goes then Execution.Goal(lines, target, i) else Head(lines, i + 1),
                                           m.control.calls, m.control.fuel - 1, Execution.Running)
  {
    DecodeAtHead(lines, i);
    HeadHolds(lines, i);
    Execution.BranchGoes(lines, target, Execution.Choice(Taken(lines[i].Meaning(), m.store.zf), None), m.control, i);
  }
}
