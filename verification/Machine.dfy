/** The register machine: typed registers, the zero flag, and the opcodes the two programs use. */
module Machine {
  import Binary
  import opened Graphs
  import opened Words
  import opened LaneWalks
  import opened LaneReductions
  import opened Options

  /** A register's value together with its type tag. */
  datatype Value =
    | Null
    | Int64(n: nat)
    | NodeId(id: nat)
    | NodeVector(ids: seq<nat>)
    | Bitset(members: set<nat>)
    | LaneFrontier(frontier: Frontier)
  {
    /** The nodes a one-bit set or walk opcode reads; None traps. */
    function AsSet(): Option<set<nat>> {
      match this
      case Bitset(s) => Some(s)
      case NodeId(u) => Some({u})
      case Int64(u) => Some({u})
      case NodeVector(ids) => Some(set u | u in ids)
      case Null => Some({})
      case _ => None
    }

    /** The bit set an accumulating walk adds to. */
    function Kept(accumulate: bool): set<nat> {
      if accumulate && Bitset? then members else {}
    }

    /** The node IDs a lane initialisation would seed from this value lie below n. */
    predicate SeedsBelow(flags: nat, count: nat, n: nat) {
      match this
      case Bitset(s) => forall x :: x in s ==> x < n
      case NodeVector(ids) => forall i :: 0 <= i < Min(64, |ids|) ==> ids[i] < n
      case NodeId(u) => u + RunLength(flags, count) <= n
      case Int64(u) => u + RunLength(flags, count) <= n
      case Null => (if flags % 2 == 1 then DefaultLanes(count) else 1) <= n
      case _ => true
    }

    predicate CanSeed() {
      Bitset? || NodeVector? || NodeId? || Int64? || Null?
    }

    /** The seeds of lanes 0, 1, ... that this value stands for. */
    ghost predicate SeedsAre(flags: nat, count: nat, seeds: seq<nat>) {
      match this
      case Bitset(s) => Ascending(s, seeds) && |seeds| == Min(64, |s|)
      case NodeVector(ids) => seeds == ids[..Min(64, |ids|)]
      case NodeId(u) => IsRunFrom(u, RunLength(flags, count), seeds)
      case Int64(u) => IsRunFrom(u, RunLength(flags, count), seeds)
      case Null => IsRunFrom(0, if flags % 2 == 1 then DefaultLanes(count) else 1, seeds)
      case _ => false
    }

    /** How many lanes are active: as many as seeds, except that TYPE_NULL seeds lane 0 of several. */
    function ActiveLanes(count: nat, seeds: nat): nat {
      if Null? then DefaultLanes(count) else seeds
    }

    /** The (lane, edge) pairs an edge register trips; None traps. */
    function Cuts(flags: nat): Option<seq<(nat, nat)>> {
      match this
      case Int64(e) => Some([(flags % 64, e)])
      case NodeId(e) => Some([(flags % 64, e)])
      case NodeVector(vec) => Some(CutsOfVector(vec, flags % 2 == 1))
      case Null => Some([])
      case _ => None
    }
  }

  /** A one-bit set or walk opcode reads node u from this value. */
  ghost predicate Names(v: Value, u: nat) {
    match v
    case Bitset(members) => u in members
    case NodeId(id) => u == id
    case Int64(n) => u == n
    case NodeVector(ids) => exists i :: 0 <= i < |ids| && ids[i] == u
    case _ => false
  }

  lemma AsSetNames(v: Value)
    ensures v.AsSet().None? <==> v.LaneFrontier?
    ensures v.AsSet().Some? ==> forall u: nat :: u in v.AsSet().value <==> Names(v, u)
  {
  }

  /** An edge register with this value trips edge e in lane b. */
  ghost predicate TripsEdge(v: Value, flags: nat, b: nat, e: nat) {
    match v
    case Int64(n) => b == flags % 64 && e == n
    case NodeId(n) => b == flags % 64 && e == n
    case NodeVector(vec) =>
      if flags % 2 == 1 then
        e < 0x1_0000_0000 && exists i :: 0 <= i < |vec| && vec[i] == b * 0x1_0000_0000 + e
      else b < 64 && b < |vec| && vec[b] == e
    case _ => false
  }

  lemma PackedCuts(vec: seq<nat>, b: nat, e: nat)
    ensures (b, e) in CutsOfVector(vec, true) <==>
            e < 0x1_0000_0000 && exists i :: 0 <= i < |vec| && vec[i] == b * 0x1_0000_0000 + e
  {
    var cuts := CutsOfVector(vec, true);
    if e < 0x1_0000_0000 && exists i :: 0 <= i < |vec| && vec[i] == b * 0x1_0000_0000 + e {
      var i :| 0 <= i < |vec| && vec[i] == b * 0x1_0000_0000 + e;
      assert cuts[i] == (b, e);
    }
  }

  lemma CutsTrip(v: Value, flags: nat)
    ensures v.Cuts(flags).None? <==> v.Bitset? || v.LaneFrontier?
    ensures v.Cuts(flags).Some? ==>
              forall b: nat, e: nat :: (b, e) in v.Cuts(flags).value <==> TripsEdge(v, flags, b, e)
  {
    if v.NodeVector? {
      forall b: nat, e: nat ensures (b, e) in v.Cuts(flags).value <==> TripsEdge(v, flags, b, e) {
        if flags % 2 == 1 {
          PackedCuts(v.ids, b, e);
        } else {
          var cuts := CutsOfVector(v.ids, false);
          assert b < |cuts| ==> cuts[b] == (b, v.ids[b]);
        }
      }
    }
  }

  /** A scalar seeds one lane, or a contiguous run under flag bit 0. */
  function RunLength(flags: nat, count: nat): nat {
    if flags % 2 == 1 && count > 1 then Min(64, count) else 1
  }

  function DefaultLanes(count: nat): nat {
    Min(64, if count > 0 then count else 8)
  }

  ghost predicate IsRunFrom(u: nat, length: nat, seeds: seq<nat>) {
    |seeds| == length && forall b :: 0 <= b < length ==> seeds[b] == u + b
  }

  datatype Status = Ok | OutOfBounds | InvalidRegister

  const REGISTERS := 64
  const FIXPOINT := 4

  /** What one lane walk must produce, per lane, for the given modifier flags. */
  ghost predicate LaneWalked(g: Csr, rel: nat, flags: nat, reverse: bool, src: Frontier, f: Frontier)
    requires g.Valid()
  {
    && f.Valid(g.NodeCount()) && f.k == src.k && f.trips == src.trips
    && forall b :: 0 <= b < f.k ==>
         if flags / FIXPOINT % 2 == 1 then
           forall v: nat :: v in f.Nodes(b) <==> Reaches(LaneArcs(g, rel, src.trips, reverse, b), src.Nodes(b), v)
         else
           forall v: nat :: v in f.Nodes(b) <==>
             (flags % 4 != 0 && v in src.Nodes(b)) || Enters(g, rel, src, reverse, b, v)
  }

  /** Lane b starts at the b-th seed v stands for. */
  ghost predicate Seeded(f: Frontier, v: Value, flags: nat, count: nat, seeds: seq<nat>) {
    && v.SeedsAre(flags, count, seeds) && f.k == v.ActiveLanes(count, |seeds|) && f.trips == map[]
    && forall b :: 0 <= b < f.k ==> f.Nodes(b) == if b < |seeds| then {seeds[b]} else {}
  }

  /** A scalar source: a run of nodes, one per lane. */
  method SeedRun(n: nat, u: nat, flags: nat, count: nat) returns (f: Frontier, ghost seeds: seq<nat>)
    requires u + RunLength(flags, count) <= n
    ensures f.Valid(n) && f.k == |seeds| && f.trips == map[]
    ensures IsRunFrom(u, RunLength(flags, count), seeds)
    ensures forall b :: 0 <= b < f.k ==> f.Nodes(b) == {seeds[b]}
  {
    f := InitSeedRun(n, u, flags % 2 == 1, count);
    seeds := seq(RunLength(flags, count), i => u + i);
  }

  /** No source: node b in every lane b, or node 0 in lane 0 of several. */
  method SeedDefault(n: nat, every: bool, count: nat) returns (f: Frontier, ghost seeds: seq<nat>)
    requires (if every then DefaultLanes(count) else 1) <= n
    ensures f.Valid(n) && f.k == DefaultLanes(count) && f.trips == map[]
    ensures IsRunFrom(0, if every then DefaultLanes(count) else 1, seeds)
    ensures forall b :: 0 <= b < f.k ==> f.Nodes(b) == if b < |seeds| then {seeds[b]} else {}
  {
    f := InitDefaultSeeds(n, DefaultLanes(count), every);
    seeds := seq(if every then DefaultLanes(count) else 1, i => i);
  }

  method SeedLanes(n: nat, v: Value, flags: nat, count: nat) returns (f: Frontier, ghost seeds: seq<nat>)
    requires v.CanSeed() && v.SeedsBelow(flags, count, n)
    ensures f.Valid(n) && Seeded(f, v, flags, count, seeds)
  {
    match v {
      case Bitset(s) =>
        f, seeds := InitSeedsFromBitset(n, s);
      case NodeVector(ids) =>
        var first := ids[..Min(64, |ids|)];
        f := InitSeeds(n, first);
        seeds := first;
      case NodeId(u) =>
        f, seeds := SeedRun(n, u, flags, count);
      case Int64(u) =>
        f, seeds := SeedRun(n, u, flags, count);
      case Null =>
        f, seeds := SeedDefault(n, flags % 2 == 1, count);
    }
  }

  class Vm {
    const nodes: nat
    var registers: seq<Value>
    var zf: bool
    var relations: map<nat, Csr>

    ghost predicate Valid()
      reads this
    {
      && |registers| == REGISTERS
      && (forall r :: r in relations ==> relations[r].Valid() && relations[r].NodeCount() == nodes)
      && forall i :: 0 <= i < REGISTERS && registers[i].LaneFrontier? ==> registers[i].frontier.Valid(nodes)
    }

    constructor (nodes: nat)
      ensures Valid()
      ensures this.nodes == nodes && relations == map[] && !zf
      ensures forall i :: 0 <= i < REGISTERS ==> registers[i] == Null
    {
      this.nodes := nodes;
      registers := seq(REGISTERS, _ => Null);
      zf := false;
      relations := map[];
    }

    /** 0x09: binds a topology to relation slot `slot`; no register changes. */
    method InitMockGraph(slot: nat, g: Csr)
      requires Valid()
      requires g.Valid() && g.NodeCount() == nodes
      modifies this`relations
      ensures Valid()
      ensures relations == old(relations)[slot := g]
    {
      relations := relations[slot := g];
    }

    /** 0x0A, 0x04: loads an inline set or an integer constant. */
    method Load(dst: nat, v: Value) returns (status: Status)
      requires Valid()
      requires v.Bitset? || v.Int64?
      modifies this`registers
      ensures Valid()
      ensures status == if dst < REGISTERS then Ok else InvalidRegister
      ensures registers == if status == Ok then old(registers)[dst := v] else old(registers)
    {
      if dst >= REGISTERS {
        return InvalidRegister;
      }
      registers := registers[dst := v];
      status := Ok;
    }

    /** 0x70: copies value and tag; the copy is deep, so later writes to either stay apart. */
    method Mov(dst: nat, src: nat) returns (status: Status)
      requires Valid()
      modifies this`registers
      ensures Valid()
      ensures status == if dst < REGISTERS && src < REGISTERS then Ok else InvalidRegister
      ensures registers == if status == Ok then old(registers)[dst := old(registers)[src]] else old(registers)
    {
      if dst >= REGISTERS || src >= REGISTERS {
        return InvalidRegister;
      }
      registers := registers[dst := registers[src]];
      status := Ok;
    }

    // ---- One-bit frontiers ----

    /** The set a register can be read as, or None if the register or its tag is not allowed. */
    function SetAt(i: nat): Option<set<nat>>
      requires |registers| == REGISTERS
      reads this
    {
      if i < REGISTERS then registers[i].AsSet() else None
    }

    /** Writes one result and sets ZF when the set is empty. */
    method WriteSet(dst: nat, s: set<nat>)
      requires Valid() && dst < REGISTERS
      modifies this`registers, this`zf
      ensures Valid()
      ensures registers == old(registers)[dst := Bitset(s)]
      ensures zf <==> s == {}
    {
      registers := registers[dst := Bitset(s)];
      zf := s == {};
    }

    /** 0x10 OP_CSR_WALK: the targets of all edges leaving the source set, added to dst under ACCUMULATE. */
    method CsrWalk(dst: nat, src: nat, rel: nat, accumulate: bool) returns (status: Status)
      requires Valid()
      modifies this`registers, this`zf
      ensures Valid()
      ensures status == if dst >= REGISTERS || old(SetAt(src)).None? then InvalidRegister
                        else if rel !in relations then OutOfBounds else Ok
      ensures status != Ok ==> registers == old(registers) && zf == old(zf)
      ensures status == Ok ==>
                var next := Image(Topology(relations[rel]), old(SetAt(src)).value);
                && registers == old(registers)[dst := Bitset(next + old(registers[dst]).Kept(accumulate))]
                && (zf <==> next == {})
      ensures status == InvalidRegister <==> dst >= REGISTERS || src >= REGISTERS || old(registers[src]).LaneFrontier?
      ensures status == Ok ==> forall v: nat :: v in registers[dst].members <==>
                || (accumulate && old(registers[dst]).Bitset? && v in old(registers[dst]).members)
                || Follows(relations[rel], old(registers[src]), v)
    {
      if src < REGISTERS {
        AsSetNames(registers[src]);
      }
      if dst >= REGISTERS || SetAt(src).None? {
        return InvalidRegister;
      }
      if rel !in relations {
        return OutOfBounds;
      }
      var next := Step(relations[rel], SetAt(src).value);
      forall v: nat ensures v in next <==> Follows(relations[rel], registers[src], v) {
        FollowsIsImage(relations[rel], registers[src], v);
      }
      WriteSet(dst, next + registers[dst].Kept(accumulate));
      zf := next == {};
      status := Ok;
    }

    /** 0x30 OP_SET_UNION */
    method SetUnion(dst: nat, src1: nat, src2: nat) returns (status: Status)
      requires Valid()
      modifies this`registers, this`zf
      ensures Valid()
      ensures status == if dst >= REGISTERS || old(SetAt(src1)).None? || old(SetAt(src2)).None?
                        then InvalidRegister else Ok
      ensures status != Ok ==> registers == old(registers) && zf == old(zf)
      ensures status == Ok ==>
                var s := old(SetAt(src1)).value + old(SetAt(src2)).value;
                registers == old(registers)[dst := Bitset(s)] && (zf <==> s == {})
      ensures status == Ok <==> && dst < REGISTERS && src1 < REGISTERS && src2 < REGISTERS
                                && !old(registers[src1]).LaneFrontier? && !old(registers[src2]).LaneFrontier?
      ensures status == Ok ==> forall u: nat :: u in registers[dst].members <==>
                Names(old(registers[src1]), u) || Names(old(registers[src2]), u)
    {
      if src1 < REGISTERS && src2 < REGISTERS {
        AsSetNames(registers[src1]);
        AsSetNames(registers[src2]);
      }
      if dst >= REGISTERS || SetAt(src1).None? || SetAt(src2).None? {
        return InvalidRegister;
      }
      WriteSet(dst, SetAt(src1).value + SetAt(src2).value);
      status := Ok;
    }

    /** 0x32 OP_SET_DIFFERENCE */
    method SetDifference(dst: nat, src1: nat, src2: nat) returns (status: Status)
      requires Valid()
      modifies this`registers, this`zf
      ensures Valid()
      ensures status == if dst >= REGISTERS || old(SetAt(src1)).None? || old(SetAt(src2)).None?
                        then InvalidRegister else Ok
      ensures status != Ok ==> registers == old(registers) && zf == old(zf)
      ensures status == Ok ==>
                var s := old(SetAt(src1)).value - old(SetAt(src2)).value;
                registers == old(registers)[dst := Bitset(s)] && (zf <==> s == {})
      ensures status == Ok <==> && dst < REGISTERS && src1 < REGISTERS && src2 < REGISTERS
                                && !old(registers[src1]).LaneFrontier? && !old(registers[src2]).LaneFrontier?
      ensures status == Ok ==> forall u: nat :: u in registers[dst].members <==>
                Names(old(registers[src1]), u) && !Names(old(registers[src2]), u)
    {
      if src1 < REGISTERS && src2 < REGISTERS {
        AsSetNames(registers[src1]);
        AsSetNames(registers[src2]);
      }
      if dst >= REGISTERS || SetAt(src1).None? || SetAt(src2).None? {
        return InvalidRegister;
      }
      WriteSet(dst, SetAt(src1).value - SetAt(src2).value);
      status := Ok;
    }

    // ---- Multi-lane frontiers ----

    /** Whether register i holds a lane frontier; every other tag traps in a lane opcode. */
    predicate LaneAt(i: nat)
      requires |registers| == REGISTERS
      reads this
    {
      i < REGISTERS && registers[i].LaneFrontier?
    }

    method WriteLanes(dst: nat, f: Frontier)
      requires Valid() && dst < REGISTERS
      requires f.Valid(nodes)
      modifies this`registers, this`zf
      ensures Valid()
      ensures registers == old(registers)[dst := LaneFrontier(f)]
      ensures zf <==> f.Empty()
    {
      registers := registers[dst := LaneFrontier(f)];
      var u := 0;
      while u < |f.lanes| && f.lanes[u] == Zero
        invariant u <= |f.lanes|
        invariant forall w :: 0 <= w < u ==> f.lanes[w] == Zero
      {
        u := u + 1;
      }
      zf := u == |f.lanes|;
    }

    /** 0xC0 OP_LANE_INIT_SEEDS: lane b starts at the b-th seed the source register stands for. */
    method LaneInitSeeds(dst: nat, src: nat, flags: nat, count: nat) returns (status: Status, ghost seeds: seq<nat>)
      requires Valid()
      requires src < REGISTERS ==> registers[src].SeedsBelow(flags, count, nodes)
      modifies this`registers, this`zf
      ensures Valid()
      ensures status == if dst < REGISTERS && src < REGISTERS && !old(registers[src]).LaneFrontier? then Ok
                        else InvalidRegister
      ensures status != Ok ==> registers == old(registers) && zf == old(zf)
      ensures status == Ok ==> LaneAt(dst) && registers == old(registers)[dst := registers[dst]]
      ensures status == Ok ==>
                var f := registers[dst].frontier;
                f.Valid(nodes) && Seeded(f, old(registers[src]), flags, count, seeds) && (zf <==> f.Empty())
      ensures status == Ok && old(registers[src]).Null? ==>
                registers[dst].frontier.k == if count == 0 then 8 else if count < 64 then count else 64
    {
      seeds := [];
      if dst >= REGISTERS || src >= REGISTERS || !registers[src].CanSeed() {
        return InvalidRegister, seeds;
      }
      var f;
      f, seeds := SeedLanes(nodes, registers[src], flags, count);
      WriteLanes(dst, f);
      status := Ok;
    }

    /** 0xC2 OP_LANE_SET_EDGE_MASK: trips the edges the edge register stands for. */
    method LaneSetEdgeMask(dst: nat, src: nat, edgeReg: nat, rel: nat, flags: nat) returns (status: Status)
      requires Valid()
      requires edgeReg < REGISTERS && registers[edgeReg].Cuts(flags).Some? ==>
                 forall c :: c in registers[edgeReg].Cuts(flags).value ==> c.0 < 64
      modifies this`registers
      ensures Valid()
      ensures status == if dst < REGISTERS && old(LaneAt(src))
                           && edgeReg < REGISTERS
                           && !old(registers[edgeReg]).Bitset? && !old(registers[edgeReg]).LaneFrontier?
                        then Ok else InvalidRegister
      ensures status != Ok ==> registers == old(registers)
      ensures status == Ok ==> LaneAt(dst) && registers == old(registers)[dst := registers[dst]]
      ensures status == Ok ==>
                var f, g := old(registers[src]).frontier, registers[dst].frontier;
                && g.k == f.k && g.lanes == f.lanes
                && forall r: nat, e: nat, b: nat :: TripMask(g.trips, r, e).Bit(b) <==>
                     TripMask(f.trips, r, e).Bit(b)
                     || (r == rel && (b, e) in old(registers[edgeReg]).Cuts(flags).value)
      ensures status == Ok ==> forall r: nat, e: nat, b: nat ::
                TripMask(registers[dst].frontier.trips, r, e).Bit(b) <==>
                TripMask(old(registers[src]).frontier.trips, r, e).Bit(b)
                || (r == rel && TripsEdge(old(registers[edgeReg]), flags, b, e))
    {
      if edgeReg < REGISTERS {
        CutsTrip(registers[edgeReg], flags);
      }
      if dst >= REGISTERS || !LaneAt(src) || edgeReg >= REGISTERS || registers[edgeReg].Cuts(flags).None? {
        return InvalidRegister;
      }
      var f := SetEdgeMask(registers[src].frontier, rel, registers[edgeReg].Cuts(flags).value);
      registers := registers[dst := LaneFrontier(f)];
      status := Ok;
    }

    /** 0xC3 OP_LANE_CSR_WALK and 0xC4 OP_LANE_CSC_WALK (`reverse`). */
    method LaneWalk(dst: nat, src: nat, rel: nat, flags: nat, reverse: bool) returns (status: Status)
      requires Valid()
      modifies this`registers, this`zf
      ensures Valid()
      ensures status == if dst >= REGISTERS || !old(LaneAt(src)) then InvalidRegister
                        else if rel !in relations then OutOfBounds else Ok
      ensures status != Ok ==> registers == old(registers) && zf == old(zf)
      ensures status == Ok ==> LaneAt(dst) && registers == old(registers)[dst := registers[dst]]
      ensures status == Ok ==>
                && LaneWalked(relations[rel], rel, flags, reverse,
                              old(registers[src]).frontier, registers[dst].frontier)
                && (zf <==> registers[dst].frontier.Empty())
    {
      if dst >= REGISTERS || !LaneAt(src) {
        return InvalidRegister;
      }
      if rel !in relations {
        return OutOfBounds;
      }
      var f;
      if flags / FIXPOINT % 2 == 1 {
        f := WalkToFixpoint(relations[rel], rel, registers[src].frontier, reverse);
      } else {
        f := Walk(relations[rel], rel, registers[src].frontier, reverse, flags % 4 != 0);
      }
      WriteLanes(dst, f);
      status := Ok;
    }

    /** 0xC6 OP_LANE_FILTER_QUORUM in extended mask mode. */
    method LaneFilterQuorum(dst: nat, src: nat, minK: nat, reqReg: nat, forbidReg: nat) returns (status: Status)
      requires Valid()
      modifies this`registers, this`zf
      ensures Valid()
      ensures status == if dst < REGISTERS && old(LaneAt(src))
                           && reqReg < REGISTERS && old(registers[reqReg]).Int64?
                           && forbidReg < REGISTERS && old(registers[forbidReg]).Int64?
                        then Ok else InvalidRegister
      ensures status != Ok ==> registers == old(registers) && zf == old(zf)
      ensures status == Ok ==>
                && registers[dst].Bitset? && registers == old(registers)[dst := registers[dst]]
                && (zf <==> registers[dst].members == {})
      ensures status == Ok ==>
                var f := old(registers[src]).frontier;
                forall u :: u in registers[dst].members <==>
                  0 <= u < nodes && MeetsQuorum(f, minK, NumberLanes(old(registers[reqReg]).n),
                                                NumberLanes(old(registers[forbidReg]).n), u)
    {
      if dst >= REGISTERS || !LaneAt(src)
         || reqReg >= REGISTERS || !registers[reqReg].Int64?
         || forbidReg >= REGISTERS || !registers[forbidReg].Int64? {
        return InvalidRegister;
      }
      var req, forbid := WordOf(registers[reqReg].n, 64), WordOf(registers[forbidReg].n, 64);
      WordOfLanes(registers[reqReg].n);
      WordOfLanes(registers[forbidReg].n);
      var s := FilterQuorum(nodes, registers[src].frontier, minK, req, forbid);
      WriteSet(dst, s);
      status := Ok;
    }

    /** 0xC7 OP_LANE_REDUCE_AND with flag bit 0: the lanes that miss some checked node. */
    method LaneReduceIslanded(dst: nat, src: nat, maxNodes: nat) returns (status: Status)
      requires Valid()
      modifies this`registers, this`zf
      ensures Valid()
      ensures status == if dst < REGISTERS && old(LaneAt(src)) then Ok else InvalidRegister
      ensures status != Ok ==> registers == old(registers) && zf == old(zf)
      ensures status == Ok ==>
                && registers[dst].Int64? && registers == old(registers)[dst := registers[dst]]
                && (zf <==> registers[dst].n == 0)
      ensures status == Ok ==>
                var f := old(registers[src]).frontier;
                forall b: nat :: Binary.Bit(registers[dst].n, b) <==>
                  b < f.k && exists u :: 0 <= u < nodes && (maxNodes == 0 || u < maxNodes) && u !in f.Nodes(b)
    {
      if dst >= REGISTERS || !LaneAt(src) {
        return InvalidRegister;
      }
      var mask := ReduceIslanded(nodes, registers[src].frontier, maxNodes);
      var n := Words.Value(mask, 64);
      forall b: nat ensures Binary.Bit(n, b) <==> mask.Bit(b) {
        BitOfNumber(mask, b);
      }
      ValueIsZero(mask);
      registers := registers[dst := Int64(n)];
      zf := n == 0;
      status := Ok;
    }
  }

  /** All arcs of a topology. */
  ghost function Topology(g: Csr): set<Arc>
    requires g.Valid()
  {
    set e | 0 <= e < g.EdgeCount() :: g.Ends(e, false)
  }

  /** Some edge leads to v from a node the value names. */
  ghost predicate Follows(g: Csr, from: Value, v: nat)
    requires g.Valid()
  {
    exists e :: 0 <= e < g.EdgeCount() && g.targets[e] == v && Names(from, g.Row(e))
  }

  lemma FollowsIsImage(g: Csr, from: Value, v: nat)
    requires g.Valid() && from.AsSet().Some?
    ensures v in Image(Topology(g), from.AsSet().value) <==> Follows(g, from, v)
  {
    AsSetNames(from);
    if Follows(g, from, v) {
      var e :| 0 <= e < g.EdgeCount() && g.targets[e] == v && Names(from, g.Row(e));
      assert g.Ends(e, false) in Topology(g);
    }
  }

  /** One frontier step over the rows of the source nodes. */
  method Step(g: Csr, from: set<nat>) returns (next: set<nat>)
    requires g.Valid()
    ensures next == Image(Topology(g), from)
  {
    next := {};
    for u := 0 to g.NodeCount()
      invariant forall v :: v in next <==> exists e :: 0 <= e < g.offsets[u] && g.targets[e] == v && g.Row(e) in from
    {
      for e := g.offsets[u] to g.offsets[u + 1]
        invariant forall v :: v in next <==> exists d :: 0 <= d < e && g.targets[d] == v && g.Row(d) in from
      {
        g.RowIsUnique(e, u);
        if u in from {
          next := next + {g.targets[e]};
        }
      }
    }
    forall v ensures v in next <==> v in Image(Topology(g), from) {
      if v in next {
        var e :| 0 <= e < g.EdgeCount() && g.targets[e] == v && g.Row(e) in from;
        assert g.Ends(e, false) in Topology(g);
      }
    }
  }
}
