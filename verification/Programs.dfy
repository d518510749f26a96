/** Assembly programs run on the register machine, and what their final registers mean. */
module Programs {
  import Binary
  import opened Graphs
  import opened Words
  import opened LaneWalks
  import opened LaneReductions
  import opened Options
  import opened Machine

  // ---- N-1 contingency screening ----

  /** The arcs of g that are left once some edges are out of service. */
  ghost function Surviving(g: Csr, out: set<nat>): set<Arc>
    requires g.Valid()
  {
    set e | 0 <= e < g.EdgeCount() && e !in out :: g.Ends(e, false)
  }

  /** The edges that a list of (lane, edge) contingencies takes out in lane b. */
  ghost function Outages(cuts: seq<(nat, nat)>, b: nat): set<nat> {
    set i | 0 <= i < |cuts| && cuts[i].0 == b :: cuts[i].1
  }

  /** Contingency b islands some checked bus: it cannot be reached from lane b's seed any more. */
  ghost predicate Islanded(g: Csr, cuts: seq<(nat, nat)>, b: nat, seed: nat, maxNodes: nat)
    requires g.Valid()
  {
    exists u :: 0 <= u < g.NodeCount() && (maxNodes == 0 || u < maxNodes)
                && !Reaches(Surviving(g, Outages(cuts, b)), {seed}, u)
  }

  /** The trip masks attached so far are exactly the contingencies listed. */
  ghost predicate TripsAre(trips: Trips, rel: nat, cuts: seq<(nat, nat)>) {
    forall e: nat, b: nat :: TripMask(trips, rel, e).Bit(b) <==> e in Outages(cuts, b)
  }

  lemma OutagesSnoc(cuts: seq<(nat, nat)>, c: (nat, nat), b: nat)
    ensures Outages(cuts + [c], b) == Outages(cuts, b) + (if c.0 == b then {c.1} else {})
  {
    var all := cuts + [c];
    assert all[|cuts|] == c;
    assert forall i :: 0 <= i < |cuts| ==> all[i] == cuts[i];
  }

  lemma TripsNext(before: Trips, after: Trips, rel: nat, cuts: seq<(nat, nat)>, c: (nat, nat))
    requires TripsAre(before, rel, cuts)
    requires forall r: nat, e: nat, b: nat :: TripMask(after, r, e).Bit(b) <==>
               TripMask(before, r, e).Bit(b) || (r, e, b) == (rel, c.1, c.0)
    ensures TripsAre(after, rel, cuts + [c])
  {
    forall e: nat, b: nat ensures TripMask(after, rel, e).Bit(b) <==> e in Outages(cuts + [c], b) {
      OutagesSnoc(cuts, c, b);
    }
  }

  lemma NoTrips(rel: nat)
    ensures TripsAre(map[], rel, [])
  {
    forall b: nat ensures !Zero.Bit(b) {
      BitZero(b);
    }
  }

  lemma SurvivingIsLaneArcs(g: Csr, rel: nat, f: Frontier, cuts: seq<(nat, nat)>, b: nat)
    requires g.Valid()
    requires TripsAre(f.trips, rel, cuts)
    ensures LaneArcs(g, rel, f.trips, false, b) == Surviving(g, Outages(cuts, b))
  {
    forall e | 0 <= e < g.EdgeCount() ensures TripMask(f.trips, rel, e).Bit(b) <==> e in Outages(cuts, b) {
    }
  }

  /** Contingency by contingency: R2 <- edge, R4 <- R3 (then R4) with the edge tripped in its lane. */
  method TripAll(vm: Vm, cuts: seq<(nat, nat)>)
    requires vm.Valid() && vm.LaneAt(3) && vm.registers[3].frontier.trips == map[]
    requires cuts != [] && forall i :: 0 <= i < |cuts| ==> cuts[i].0 < 64
    modifies vm`registers
    ensures vm.Valid() && vm.LaneAt(4)
    ensures var f, g := old(vm.registers[3]).frontier, vm.registers[4].frontier;
            g.k == f.k && g.lanes == f.lanes && TripsAre(g.trips, 0, cuts)
  {
    ghost var start := vm.registers[3].frontier;
    NoTrips(0);
    TripOne(vm, 3, cuts, 0);
    for i := 1 to |cuts|
      invariant vm.Valid() && vm.LaneAt(4)
      invariant var g := vm.registers[4].frontier;
                g.k == start.k && g.lanes == start.lanes && TripsAre(g.trips, 0, cuts[..i])
    {
      TripOne(vm, 4, cuts, i);
    }
    assert cuts[..|cuts|] == cuts;
  }

  method TripOne(vm: Vm, src: nat, cuts: seq<(nat, nat)>, i: nat)
    requires vm.Valid() && src != 2 && vm.LaneAt(src)
    requires i < |cuts| && cuts[i].0 < 64
    requires TripsAre(vm.registers[src].frontier.trips, 0, cuts[..i])
    modifies vm`registers
    ensures vm.Valid() && vm.LaneAt(4)
    ensures var f, g := old(vm.registers[src]).frontier, vm.registers[4].frontier;
            g.k == f.k && g.lanes == f.lanes && TripsAre(g.trips, 0, cuts[..i + 1])
  {
    ghost var before := vm.registers[src].frontier.trips;
    var ok := vm.Load(2, Int64(cuts[i].1));
    assert vm.registers[2].Cuts(cuts[i].0) == Some([cuts[i]]);
    ok := vm.LaneSetEdgeMask(4, src, 2, 0, cuts[i].0);
    TripsNext(before, vm.registers[4].frontier.trips, 0, cuts[..i], cuts[i]);
    assert cuts[..i + 1] == cuts[..i] + [cuts[i]];
  }

  lemma WalkedIsIslanded(g: Csr, cuts: seq<(nat, nat)>, tripped: Frontier, walked: Frontier, b: nat,
                         seed: nat, maxNodes: nat)
    requires g.Valid()
    requires TripsAre(tripped.trips, 0, cuts)
    requires LaneWalked(g, 0, FIXPOINT, false, tripped, walked)
    requires b < tripped.k && tripped.Nodes(b) == {seed}
    ensures (exists u :: 0 <= u < g.NodeCount() && (maxNodes == 0 || u < maxNodes) && u !in walked.Nodes(b))
       <==> Islanded(g, cuts, b, seed, maxNodes)
  {
    SurvivingIsLaneArcs(g, 0, tripped, cuts, b);
  }

  /**
   * The screening program for any network, seed set and list of contingencies: R6 ends as the mask of
   * the contingencies that island some checked bus, and ZF says whether there is none.
   */
  method ScreenContingencies(vm: Vm, g: Csr, seeds: set<nat>, cuts: seq<(nat, nat)>, maxNodes: nat)
    returns (ghost ring: seq<nat>)
    requires vm.Valid() && g.Valid() && g.NodeCount() == vm.nodes
    requires forall s :: s in seeds ==> s < vm.nodes
    requires cuts != [] && forall i :: 0 <= i < |cuts| ==> cuts[i].0 < 64
    modifies vm
    ensures vm.Valid()
    ensures Ascending(seeds, ring) && |ring| == Min(64, |seeds|)
    ensures vm.registers[6].Int64?
    ensures forall b: nat :: Binary.Bit(vm.registers[6].n, b) <==>
              b < |ring| && Islanded(g, cuts, b, ring[b], maxNodes)
    ensures vm.zf <==> vm.registers[6].n == 0
  {
    vm.InitMockGraph(0, g);
    var ok := vm.Load(1, Bitset(seeds));
    ok, ring := vm.LaneInitSeeds(3, 1, 0, 0);
    ghost var start := vm.registers[3].frontier;
    TripAll(vm, cuts);
    ghost var tripped := vm.registers[4].frontier;
    ok := vm.LaneWalk(5, 4, 0, FIXPOINT, false);
    ghost var walked := vm.registers[5].frontier;
    ok := vm.LaneReduceIslanded(6, 5, maxNodes);
    forall b: nat | b < |ring|
      ensures (exists u :: 0 <= u < vm.nodes && (maxNodes == 0 || u < maxNodes) && u !in walked.Nodes(b))
         <==> Islanded(g, cuts, b, ring[b], maxNodes)
    {
      assert start.Nodes(b) == {ring[b]};
      WalkedIsIslanded(g, cuts, tripped, walked, b, ring[b], maxNodes);
    }
  }

  // ---- Quorum over separate searches ----

  /** The searches named by a mask that reach u, search b being the one from seed b alone. */
  ghost function Searches(g: Csr, ring: seq<nat>, mask: nat, u: nat): set<nat>
    requires g.Valid()
  {
    set b | 0 <= b < |ring| && Binary.Bit(mask, b) && Reaches(Topology(g), {ring[b]}, u)
  }

  /** Every lane of a walked frontier is its own search. */
  ghost predicate LanesAreSearches(g: Csr, walked: Frontier, ring: seq<nat>)
    requires g.Valid()
  {
    && walked.Valid(g.NodeCount()) && walked.k == |ring|
    && forall b, u: nat :: 0 <= b < |ring| ==>
         (u in walked.Nodes(b) <==> Reaches(Topology(g), {ring[b]}, u))
  }

  /**
   * Seed from a bit set, walk to the fixpoint, filter by quorum: a node is selected exactly when at
   * least minK of the searches named by req reach it and none named by forbid does.
   */
  method SearchByQuorum(vm: Vm, g: Csr, seeds: set<nat>, minK: nat, req: nat, forbid: nat)
    returns (ghost ring: seq<nat>)
    requires vm.Valid() && g.Valid() && g.NodeCount() == vm.nodes
    requires forall s :: s in seeds ==> s < vm.nodes
    modifies vm
    ensures vm.Valid()
    ensures Ascending(seeds, ring) && |ring| == Min(64, |seeds|)
    ensures vm.registers[6].Bitset?
    ensures forall u :: u in vm.registers[6].members <==>
              && 0 <= u < vm.nodes
              && |Searches(g, ring, req, u)| >= minK
              && Searches(g, ring, forbid, u) == {}
  {
    vm.InitMockGraph(0, g);
    var ok := vm.Load(1, Bitset(seeds));
    ok, ring := vm.LaneInitSeeds(2, 1, 0, 0);
    ghost var start := vm.registers[2].frontier;
    ok := vm.LaneWalk(3, 2, 0, FIXPOINT, false);
    ghost var walked := vm.registers[3].frontier;
    WalkedIsSearches(g, start, walked, ring);
    ok := vm.Load(4, Int64(req));
    ok := vm.Load(5, Int64(forbid));
    ok := vm.LaneFilterQuorum(6, 3, minK, 4, 5);
    forall u: nat | 0 <= u < vm.nodes
      ensures MeetsQuorum(walked, minK, NumberLanes(req), NumberLanes(forbid), u) <==>
              |Searches(g, ring, req, u)| >= minK && Searches(g, ring, forbid, u) == {}
    {
      QuorumOfSearches(g, walked, ring, minK, req, forbid, u);
    }
  }

  lemma UntrippedArcs(g: Csr, rel: nat, f: Frontier, b: nat)
    requires g.Valid() && f.trips == map[]
    ensures LaneArcs(g, rel, f.trips, false, b) == Topology(g)
  {
    BitZero(b);
    var arcs := LaneArcs(g, rel, f.trips, false, b);
    forall a: Arc ensures a in arcs <==> a in Topology(g) {
      if a in arcs {
        var e :| 0 <= e < g.EdgeCount() && a == (g.Row(e), g.targets[e]);
        assert a == g.Ends(e, false);
      }
      if a in Topology(g) {
        var e :| 0 <= e < g.EdgeCount() && a == g.Ends(e, false);
        assert !TripMask(f.trips, rel, e).Bit(b);
        assert a == (g.Row(e), g.targets[e]);
      }
    }
  }

  lemma WalkedIsSearches(g: Csr, start: Frontier, walked: Frontier, ring: seq<nat>)
    requires g.Valid()
    requires LaneWalked(g, 0, FIXPOINT, false, start, walked)
    requires start.trips == map[] && start.k == |ring|
    requires forall b :: 0 <= b < |ring| ==> start.Nodes(b) == {ring[b]}
    ensures LanesAreSearches(g, walked, ring)
  {
    forall b, u: nat | 0 <= b < |ring| ensures u in walked.Nodes(b) <==> Reaches(Topology(g), {ring[b]}, u) {
      UntrippedArcs(g, 0, start, b);
    }
  }

  lemma LanesNamed(g: Csr, walked: Frontier, ring: seq<nat>, mask: nat, u: nat)
    requires g.Valid() && u < g.NodeCount()
    requires LanesAreSearches(g, walked, ring)
    ensures (set b | b in NumberLanes(mask) && u in walked.Nodes(b)) == Searches(g, ring, mask, u)
  {
    LanesAtActive(walked, g.NodeCount(), u);
    forall b: nat ensures u in walked.Nodes(b) ==> b < |ring| {
      LanesAtIsNodes(walked, u, b);
    }
  }

  lemma QuorumOfSearches(g: Csr, walked: Frontier, ring: seq<nat>, minK: nat, req: nat, forbid: nat, u: nat)
    requires g.Valid() && u < g.NodeCount()
    requires LanesAreSearches(g, walked, ring)
    ensures MeetsQuorum(walked, minK, NumberLanes(req), NumberLanes(forbid), u) <==>
            |Searches(g, ring, req, u)| >= minK && Searches(g, ring, forbid, u) == {}
  {
    LanesNamed(g, walked, ring, req, u);
    LanesNamed(g, walked, ring, forbid, u);
    var hits := set b | b in NumberLanes(forbid) && u in walked.Nodes(b);
    assert hits == {} <==> forall b :: b in NumberLanes(forbid) ==> u !in walked.Nodes(b) by {
      if b :| b in NumberLanes(forbid) && u in walked.Nodes(b) {
        assert b in hits;
      }
    }
  }

  // ---- Both directions, and trips of other slots ----

  /** The reverse fixpoint from s holds v exactly when the forward fixpoint from v holds s, under the same trips. */
  lemma WalksAreDual(g: Csr, rel: nat, from: Frontier, back: Frontier, to: Frontier, forth: Frontier,
                     b: nat, s: nat, v: nat)
    requires g.Valid() && from.trips == to.trips
    requires LaneWalked(g, rel, FIXPOINT, true, from, back) && LaneWalked(g, rel, FIXPOINT, false, to, forth)
    requires b < from.k && from.Nodes(b) == {s} && b < to.k && to.Nodes(b) == {v}
    ensures v in back.Nodes(b) <==> s in forth.Nodes(b)
  {
    ReverseReaches(g, rel, from.trips, b, s, v);
  }

  /** Edges tripped in another relation slot change no walk, one-step or to the fixpoint, either way. */
  lemma OtherSlotTrips(g: Csr, rel: nat, flags: nat, reverse: bool, other: nat, cuts: seq<(nat, nat)>,
                       plain: Frontier, tripped: Frontier, walked: Frontier, after: Frontier, b: nat)
    requires g.Valid() && other != rel
    requires tripped.k == plain.k && tripped.lanes == plain.lanes
    requires forall r: nat, e: nat, c: nat :: TripMask(tripped.trips, r, e).Bit(c) <==>
               TripMask(plain.trips, r, e).Bit(c) || (r == other && (c, e) in cuts)
    requires LaneWalked(g, rel, flags, reverse, plain, walked) && LaneWalked(g, rel, flags, reverse, tripped, after)
    requires b < plain.k
    ensures after.Nodes(b) == walked.Nodes(b)
  {
    OnlyOwnTrips(g, rel, plain.trips, tripped.trips, reverse, b);
    forall v: nat ensures Enters(g, rel, plain, reverse, b, v) <==> Enters(g, rel, tripped, reverse, b, v) {
      EntersIsImage(g, rel, plain, reverse, b, v);
      EntersIsImage(g, rel, tripped, reverse, b, v);
    }
    forall v: nat ensures v in after.Nodes(b) <==> v in walked.Nodes(b) {
    }
  }

  // ---- Delta-frontier breadth-first search ----

  /** The nodes within h steps, and the nodes first met at step h. */
  ghost predicate HistoryIs(arcs: set<Arc>, from: set<nat>, h: nat, s: set<nat>) {
    forall v :: v in s <==> ReachesIn(arcs, from, v, h)
  }

  ghost predicate DeltaIs(arcs: set<Arc>, from: set<nat>, h: nat, s: set<nat>) {
    forall v :: v in s <==> ReachesIn(arcs, from, v, h) && (h > 0 ==> !ReachesIn(arcs, from, v, h - 1))
  }

  lemma RoundZero(arcs: set<Arc>, from: set<nat>)
    ensures HistoryIs(arcs, from, 0, from) && DeltaIs(arcs, from, 0, from)
  {
    forall v: nat ensures v in from <==> ReachesIn(arcs, from, v, 0) {
      if v in from {
        ReachesStart(arcs, from, v);
      }
    }
  }

  /** Walking only the delta is enough: nodes met earlier were stepped from already. */
  lemma RoundNext(arcs: set<Arc>, from: set<nat>, h: nat, history: set<nat>, delta: set<nat>)
    requires HistoryIs(arcs, from, h, history) && DeltaIs(arcs, from, h, delta)
    ensures HistoryIs(arcs, from, h + 1, history + (Image(arcs, delta) - history))
    ensures DeltaIs(arcs, from, h + 1, Image(arcs, delta) - history)
  {
    forall v: nat
      ensures v in Image(arcs, delta) - history <==> ReachesIn(arcs, from, v, h + 1) && !ReachesIn(arcs, from, v, h)
      ensures ReachesIn(arcs, from, v, h) ==> ReachesIn(arcs, from, v, h + 1)
    {
      ReachesInSplit(arcs, from, v, h);
      if ReachesIn(arcs, from, v, h + 1) && !ReachesIn(arcs, from, v, h) {
        var u :| (u, v) in arcs && ReachesIn(arcs, from, u, h);
        if h > 0 && ReachesIn(arcs, from, u, h - 1) {
          ReachesInStep(arcs, from, u, v, h - 1);
        }
        assert (u, v) in arcs && u in delta;
      }
      if v in Image(arcs, delta) {
        var a :| a in arcs && a.0 in delta && a.1 == v;
        assert (a.0, v) in arcs && ReachesIn(arcs, from, a.0, h);
      }
    }
  }

  /** Once a round meets nothing new, the history is everything reachable. */
  lemma EmptyDeltaMeansClosure(arcs: set<Arc>, from: set<nat>, h: nat, history: set<nat>)
    requires HistoryIs(arcs, from, h, history) && DeltaIs(arcs, from, h, {})
    ensures forall v :: v in history <==> Reaches(arcs, from, v)
  {
    forall v: nat ensures v in history <==> Reaches(arcs, from, v) {
      if Reaches(arcs, from, v) {
        var p :| Connects(arcs, from, v, p);
        NothingAfter(arcs, from, h, |p| - 1, v);
      }
    }
  }

  lemma {:induction false} NothingAfter(arcs: set<Arc>, from: set<nat>, h: nat, n: nat, v: nat)
    requires DeltaIs(arcs, from, h, {})
    requires ReachesIn(arcs, from, v, n)
    ensures ReachesIn(arcs, from, v, h)
    decreases n
  {
    if n > h {
      ReachesInSplit(arcs, from, v, n - 1);
      if ReachesIn(arcs, from, v, n - 1) {
        NothingAfter(arcs, from, h, n - 1, v);
      } else {
        var u :| (u, v) in arcs && ReachesIn(arcs, from, u, n - 1);
        NothingAfter(arcs, from, h, n - 1, u);
        assert h > 0 ==> ReachesIn(arcs, from, u, h - 1);
        StepFromEarlier(arcs, from, h, u, v);
      }
    }
  }

  lemma StepFromEarlier(arcs: set<Arc>, from: set<nat>, h: nat, u: nat, v: nat)
    requires DeltaIs(arcs, from, h, {})
    requires ReachesIn(arcs, from, u, h) && (u, v) in arcs
    ensures ReachesIn(arcs, from, v, h)
  {
    assert u !in {};
    if h > 0 {
      ReachesInStep(arcs, from, u, v, h - 1);
    }
  }

  method WalkDelta(vm: Vm, g: Csr)
    requires vm.Valid() && 0 in vm.relations && vm.relations[0] == g && vm.registers[1].Bitset?
    modifies vm`registers, vm`zf
    ensures vm.Valid()
    ensures vm.registers == old(vm.registers)[4 := Bitset(Image(Topology(g), old(vm.registers[1]).members))]
  {
    ghost var next := Image(Topology(g), vm.registers[1].members);
    var ok := vm.CsrWalk(4, 1, 0, false);
    assert next + {} == next;
  }

  method KeepNew(vm: Vm)
    requires vm.Valid() && vm.registers[4].Bitset? && vm.registers[2].Bitset?
    modifies vm`registers, vm`zf
    ensures vm.Valid()
    ensures vm.registers
         == old(vm.registers)[1 := Bitset(old(vm.registers[4]).members - old(vm.registers[2]).members)]
  {
    var ok := vm.SetDifference(1, 4, 2);
  }

  method AddNew(vm: Vm)
    requires vm.Valid() && vm.registers[1].Bitset? && vm.registers[2].Bitset?
    modifies vm`registers, vm`zf
    ensures vm.Valid()
    ensures vm.registers
         == old(vm.registers)[2 := Bitset(old(vm.registers[2]).members + old(vm.registers[1]).members)]
  {
    var ok := vm.SetUnion(2, 2, 1);
  }

  /** One round: R4 <- walk R1; R1 <- R4 - R2; R2 <- R2 + R1. */
  method DeltaRound(vm: Vm, g: Csr)
    requires vm.Valid() && 0 in vm.relations && vm.relations[0] == g
    requires vm.registers[1].Bitset? && vm.registers[2].Bitset?
    modifies vm`registers, vm`zf
    ensures vm.Valid()
    ensures var history, next := old(vm.registers[2]).members, Image(Topology(g), old(vm.registers[1]).members);
            && vm.registers[1] == Bitset(next - history)
            && vm.registers[2] == Bitset(history + (next - history))
  {
    WalkDelta(vm, g);
    KeepNew(vm);
    AddNew(vm);
  }

  /**
   * The delta-frontier program with any number of rounds of walk, difference and union. R2 ends as the
   * nodes within `rounds` steps of the seeds, R1 as those first met in the last round.
   */
  method DeltaFrontier(vm: Vm, g: Csr, seeds: set<nat>, rounds: nat)
    requires vm.Valid() && g.Valid() && g.NodeCount() == vm.nodes
    modifies vm
    ensures vm.Valid()
    ensures vm.registers[2].Bitset? && HistoryIs(Topology(g), seeds, rounds, vm.registers[2].members)
    ensures vm.registers[1].Bitset? && DeltaIs(Topology(g), seeds, rounds, vm.registers[1].members)
    ensures vm.registers[1].members == {} ==>
              forall v :: v in vm.registers[2].members <==> Reaches(Topology(g), seeds, v)
  {
    vm.InitMockGraph(0, g);
    var ok := vm.Load(1, Bitset(seeds));
    ok := vm.Mov(2, 1);
    RoundZero(Topology(g), seeds);
    for h := 0 to rounds
      invariant vm.Valid() && vm.relations == old(vm.relations)[0 := g]
      invariant vm.registers[1].Bitset? && vm.registers[2].Bitset?
      invariant HistoryIs(Topology(g), seeds, h, vm.registers[2].members)
      invariant DeltaIs(Topology(g), seeds, h, vm.registers[1].members)
    {
      RoundNext(Topology(g), seeds, h, vm.registers[2].members, vm.registers[1].members);
      DeltaRound(vm, g);
    }
    if vm.registers[1].members == {} {
      EmptyDeltaMeansClosure(Topology(g), seeds, rounds, vm.registers[2].members);
    }
  }
}
