/**
 * The N-1 screening program end to end: assembled from its text, emitted as words, and run from those
 * words and the data section.
 */
module Screening {
  import opened Graphs
  import opened Instructions
  import opened Interpreter
  import opened Operands
  import opened Options
  import opened Sequences
  import Binary
  import Bytes
  import Execution
  import InlineData
  import LaneWalks
  import Loading
  import Machine
  import Programs

  // ---- The program ----

  /** The first outage is attached to the seeded frontier in R3, every later one to R4. */
  function TripSource(j: nat): nat {
    if j == 0 then 3 else 4
  }

  /** The text's parameters: the symbols' table entries, (lane, edge) outages and the buses to check. */
  datatype Text = Text(graph: (nat, nat), seeds: (nat, nat), cuts: seq<(nat, nat)>, maxNodes: nat) {

    function Length(): nat {
      2 * |cuts| + 6
    }

    /** Line k: two symbol loads, the seeds, two lines an outage, walk, reduction, halt. */
    function LineAt(k: nat): Line
      requires k < Length()
    {
      if k == 0 then Line(0x09, 0, 0, InlineData.SymbolOperand(graph))
      else if k == 1 then Line(0x0A, 0, 1, InlineData.SymbolOperand(seeds))
      else if k == 2 then Line(0xC0, 0, 3, Pack([1, 0], HALVES))
      else if k < 2 * |cuts| + 3 then
        var j := (k - 3) / 2;
        if k % 2 == 1 then Line(0x04, 0, 2, cuts[j].1)
        else Line(0xC2, cuts[j].0, 4, Pack([TripSource(j), 2, 0], BYTES_AND_HALF))
      else if k == 2 * |cuts| + 3 then Line(0xC3, 4, 5, Pack([4, 0], HALVES))
      else if k == 2 * |cuts| + 4 then Line(0xC7, 1, 6, Pack([5, maxNodes], HALVES))
      else Line(0x00, 0, 0, 0)
    }

    function Lines(): (lines: seq<Line>)
      ensures |lines| == Length()
    {
      seq(Length(), (k: nat) requires k < Length() => LineAt(k))
    }

    /** What line k is meant to do, with its symbols resolved. */
    function OpAt(k: nat): Op
      requires k < Length()
    {
      if k == 0 then InitGraph(0, graph.0, graph.1)
      else if k == 1 then LoadSet(1, seeds.0, seeds.1)
      else if k == 2 then InitSeeds(3, 1, 0, 0)
      else if k < 2 * |cuts| + 3 then
        var j := (k - 3) / 2;
        if k % 2 == 1 then LoadInt(2, cuts[j].1) else SetEdges(4, TripSource(j), 2, 0, cuts[j].0)
      else if k == 2 * |cuts| + 3 then Walk(5, 4, 0, 4, false)
      else if k == 2 * |cuts| + 4 then Islanded(6, 5, maxNodes)
      else Halt
    }

    /** Operands that fit the instructions that carry them, and some outage to screen. */
    predicate Encodes() {
      && graph.0 < 0x1_0000 && graph.1 < 0x1_0000 && seeds.0 < 0x1_0000 && seeds.1 < 0x1_0000
      && maxNodes < 0x1_0000 && cuts != []
      && forall j :: 0 <= j < |cuts| ==> cuts[j].0 < 64 && cuts[j].1 < 0x1_0000_0000
    }

    lemma Encodable()
      requires Encodes()
      ensures Execution.Assembled(Lines())
    {
    }
  }

  // ---- From words to operations ----

  lemma PackedHalves(a: nat, b: nat)
    requires a < 0x1_0000 && b < 0x1_0000
    ensures Pack([a, b], HALVES) % 0x1_0000_0000 == Pack([a, b], HALVES)
    ensures Unpack(Pack([a, b], HALVES), HALVES) == [a, b]
  {
    Binary.Pow2Values();
    DocumentedLayouts();
    PackedMeaning(Pack([a, b], HALVES), [a, b], HALVES);
    PackRoundTrip([a, b], HALVES);
  }

  lemma PackedFields(a: nat, b: nat, c: nat)
    requires a < 0x100 && b < 0x100 && c < 0x1_0000
    ensures Pack([a, b, c], BYTES_AND_HALF) % 0x1_0000_0000 == Pack([a, b, c], BYTES_AND_HALF)
    ensures Unpack(Pack([a, b, c], BYTES_AND_HALF), BYTES_AND_HALF) == [a, b, c]
  {
    Binary.Pow2Values();
    DocumentedLayouts();
    PackedMeaning(Pack([a, b, c], BYTES_AND_HALF), [a, b, c], BYTES_AND_HALF);
    PackRoundTrip([a, b, c], BYTES_AND_HALF);
  }

  lemma SymbolMeans(entry: (nat, nat))
    requires entry.0 < 0x1_0000 && entry.1 < 0x1_0000
    ensures OpOf(Line(0x09, 0, 0, InlineData.SymbolOperand(entry)).Meaning()) == InitGraph(0, entry.0, entry.1)
    ensures OpOf(Line(0x0A, 0, 1, InlineData.SymbolOperand(entry)).Meaning()) == LoadSet(1, entry.0, entry.1)
  {
    var p := InlineData.SymbolPayload(entry);
    InlineData.SymbolRoundTrip(entry.0, entry.1);
    assert Unpack(p, HALVES)[0] == entry.0 && Unpack(p, HALVES)[1] == entry.1;
  }

  lemma HalvesMean(opcode: nat, flags: nat, dst: nat, a: nat, b: nat)
    requires a < 0x1_0000 && b < 0x1_0000
    ensures var d := Line(opcode, flags, dst, Pack([a, b], HALVES)).Meaning();
            && d == Decoded(opcode, flags, dst, Pack([a, b], HALVES))
            && Unpack(d.payload, HALVES) == [a, b]
  {
    PackedHalves(a, b);
  }

  lemma SeedsMean()
    ensures OpOf(Line(0xC0, 0, 3, Pack([1, 0], HALVES)).Meaning()) == InitSeeds(3, 1, 0, 0)
  {
    HalvesMean(0xC0, 0, 3, 1, 0);
  }

  lemma WalkMeans()
    ensures OpOf(Line(0xC3, 4, 5, Pack([4, 0], HALVES)).Meaning()) == Walk(5, 4, 0, 4, false)
  {
    HalvesMean(0xC3, 4, 5, 4, 0);
  }

  lemma ReduceMeans(maxNodes: nat)
    requires maxNodes < 0x1_0000
    ensures OpOf(Line(0xC7, 1, 6, Pack([5, maxNodes], HALVES)).Meaning()) == Islanded(6, 5, maxNodes)
  {
    HalvesMean(0xC7, 1, 6, 5, maxNodes);
  }

  lemma TripMeans(src: nat, lane: nat)
    requires src < 0x100 && lane < 64
    ensures OpOf(Line(0xC2, lane, 4, Pack([src, 2, 0], BYTES_AND_HALF)).Meaning()) == SetEdges(4, src, 2, 0, lane)
  {
    PackedFields(src, 2, 0);
    var d := Line(0xC2, lane, 4, Pack([src, 2, 0], BYTES_AND_HALF)).Meaning();
    assert Unpack(d.payload, BYTES_AND_HALF) == [src, 2, 0];
  }

  lemma LoadMeans(edge: nat)
    requires edge < 0x1_0000_0000
    ensures OpOf(Line(0x04, 0, 2, edge).Meaning()) == LoadInt(2, edge)
  {
  }

  /** Every line means its operation. */
  lemma LineMeansOp(t: Text, k: nat)
    requires t.Encodes() && k < t.Length()
    ensures OpOf(t.LineAt(k).Meaning()) == t.OpAt(k)
  {
    if k == 0 {
      SymbolMeans(t.graph);
    } else if k == 1 {
      SymbolMeans(t.seeds);
    } else if k == 2 {
      SeedsMean();
    } else if k < 2 * |t.cuts| + 3 {
      var j := (k - 3) / 2;
      LoadMeans(t.cuts[j].1);
      TripMeans(TripSource(j), t.cuts[j].0);
    } else if k == 2 * |t.cuts| + 3 {
      WalkMeans();
    } else if k == 2 * |t.cuts| + 4 {
      ReduceMeans(t.maxNodes);
    }
  }

  // ---- Steps of a run ----

  /** A run of the emitted text on some data section. */
  datatype Job = Job(text: Text, heads: seq<nat>, slots: seq<Slot>, data: seq<Bytes.byte>, nodes: nat,
                     target: Execution.Target, budget: nat)
  {
    /** The slots are the emitted text, line k of which starts at heads[k]. */
    ghost predicate Emitted() {
      && text.Encodes() && slots == EmitAll(text.Lines())
      && |heads| == text.Length() + 1 && forall k :: 0 <= k <= text.Length() ==> heads[k] == Head(text.Lines(), k)
    }

    ghost predicate Follows(m: Moment, n: Moment) {
      Interpreter.Follows(slots, data, nodes, target, m, n)
    }

    /** About to execute line k, with nothing on the stack. */
    ghost predicate At(k: nat, m: Moment) {
      && k < |heads| && k <= budget
      && m.control == Execution.Control(heads[k], [], budget - k, Execution.Running)
      && |m.store.registers| == Machine.REGISTERS
    }

    ghost predicate IsRun(trace: seq<Moment>) {
      Interpreter.IsRun(slots, data, nodes, target, trace)
    }
  }

  /** The instruction fetched at line k is its operation. */
  lemma FetchAt(job: Job, k: nat, m: Moment)
    requires job.Emitted() && k < job.text.Length() && k < job.budget && job.At(k, m)
    ensures Fetch(job.slots, m.control).Some?
    ensures Fetch(job.slots, m.control).value == job.text.LineAt(k).Meaning()
  {
    job.text.Encodable();
    var lines := job.text.Lines();
    DecodeAtHead(lines, k);
    HeadHolds(lines, k);
  }

  /** Only the last line halts and none branches. */
  lemma StraightLine(t: Text, k: nat)
    requires k < t.Length()
    ensures t.LineAt(k).opcode == Execution.HALT <==> k + 1 == t.Length()
    ensures t.LineAt(k).opcode != Execution.CALL && t.LineAt(k).opcode != Execution.RET
    ensures t.LineAt(k).opcode != Execution.JMP && !Execution.IsBranch(t.LineAt(k).opcode)
  {
  }

  lemma NextAt(job: Job, k: nat, m: Moment, choice: Execution.Choice)
    requires job.Emitted() && k < job.text.Length() && k < job.budget && job.At(k, m)
    requires !choice.taken && choice.fault.None?
    ensures var c := Execution.Next(job.slots, job.target, choice, m.control);
            if k + 1 < job.text.Length()
            then c == Execution.Control(job.heads[k + 1], [], job.budget - k - 1, Execution.Running)
            else c.status == Execution.Ok
  {
    job.text.Encodable();
    var lines := job.text.Lines();
    Execution.NextAtHead(lines, job.target, choice, m.control, k);
    assert lines[k] == job.text.LineAt(k) && job.heads[k + 1] == job.heads[k] + lines[k].Width();
    StraightLine(job.text, k);
  }

  /** What one step does: a line whose operation does not fault takes the run to the next line. */
  ghost predicate Steps(job: Job, k: nat, m: Moment, n: Moment)
    requires k < job.text.Length() && |m.store.registers| == Machine.REGISTERS
  {
    Fault(job.text.OpAt(k), job.data, job.nodes, m.store).None? ==>
      && Done(job.text.OpAt(k), job.data, job.nodes, m.store, n.store)
      && if k + 1 < job.text.Length() then |n.store.registers| == Machine.REGISTERS ==> job.At(k + 1, n)
         else n.control.status == Execution.Ok
  }

  lemma EmittedSteps(job: Job, k: nat, m: Moment, n: Moment)
    requires job.Emitted() && k < job.text.Length() && k < job.budget && job.At(k, m) && job.Follows(m, n)
    ensures Steps(job, k, m, n)
  {
    FetchAt(job, k, m);
    LineMeansOp(job.text, k);
    NextAt(job, k, m, Execution.Choice(false, None));
  }

  /** The machine follows the text: all that the lemmas below know about emission and decoding. */
  ghost predicate FollowsText(job: Job) {
    && job.text.Encodes() && job.budget >= job.text.Length() && |job.heads| == job.text.Length() + 1
    && forall k: nat, m: Moment, n: Moment ::
         k < job.text.Length() && job.At(k, m) && job.Follows(m, n) ==> Steps(job, k, m, n)
  }

  lemma EmittedFollowsText(job: Job)
    requires job.Emitted() && job.budget >= job.text.Length()
    ensures FollowsText(job)
  {
    forall k: nat, m: Moment, n: Moment | k < job.text.Length() && job.At(k, m) && job.Follows(m, n)
      ensures Steps(job, k, m, n)
    {
      EmittedSteps(job, k, m, n);
    }
  }

  lemma StepAt(job: Job, k: nat, m: Moment, n: Moment, op: Op)
    requires FollowsText(job) && k < job.text.Length() && job.At(k, m) && job.Follows(m, n)
    requires op == job.text.OpAt(k) && Fault(op, job.data, job.nodes, m.store).None?
    ensures Done(op, job.data, job.nodes, m.store, n.store)
    ensures if k + 1 < job.text.Length() then |n.store.registers| == Machine.REGISTERS ==> job.At(k + 1, n)
            else n.control.status == Execution.Ok
  {
    assert Steps(job, k, m, n);
  }

  /** The operations of the two lines of outage j. */
  lemma OutageOps(t: Text, j: nat)
    requires j < |t.cuts|
    ensures t.OpAt(2 * j + 3) == LoadInt(2, t.cuts[j].1)
    ensures t.OpAt(2 * j + 4) == SetEdges(4, TripSource(j), 2, 0, t.cuts[j].0)
  {
  }

  lemma LastOps(t: Text)
    ensures t.OpAt(2 * |t.cuts| + 3) == Walk(5, 4, 0, 4, false)
    ensures t.OpAt(2 * |t.cuts| + 4) == Islanded(6, 5, t.maxNodes)
    ensures t.OpAt(2 * |t.cuts| + 5) == Halt
  {
  }

  /** A run goes on while it is running. */
  lemma GoesOn(job: Job, trace: seq<Moment>, k: nat)
    requires job.IsRun(trace) && k < |trace| && trace[k].control.status == Execution.Running
    ensures k + 1 < |trace| && job.Follows(trace[k], trace[k + 1])
  {
  }

  // ---- The state between lines ----

  /** What the data section holds for the text's two symbols. */
  ghost predicate Holds(job: Job, g: Csr, seeds: set<nat>) {
    && InlineData.ReadGraph(job.data, job.text.graph.0, job.text.graph.1) == Some(g)
    && g.Valid() && g.NodeCount() == job.nodes
    && var words := InlineData.ReadWords(job.data, job.text.seeds.0, job.text.seeds.1);
       words.Some? && seeds == SetOf(words.value) && forall x :: x in seeds ==> x < job.nodes
  }

  /** Slot 0 holds the graph and lane b of R3 holds just ring[b], the b-th smallest seed. */
  ghost predicate Ready(g: Csr, seeds: set<nat>, ring: seq<nat>, store: Store)
    requires |store.registers| == Machine.REGISTERS
  {
    && 0 in store.relations && store.relations[0] == g
    && store.LaneAt(3) && Rings(store.registers[3].frontier, seeds, ring, g.NodeCount())
  }

  ghost predicate Rings(f: LaneWalks.Frontier, seeds: set<nat>, ring: seq<nat>, nodes: nat) {
    && LaneWalks.Ascending(seeds, ring) && |ring| == LaneWalks.Min(64, |seeds|)
    && f.Valid(nodes) && f.trips == map[] && f.k == |ring|
    && forall b :: 0 <= b < |ring| ==> f.Nodes(b) == {ring[b]}
  }

  /** f is the seeded frontier with the outages listed attached. */
  ghost predicate Trips(start: LaneWalks.Frontier, f: LaneWalks.Frontier, cuts: seq<(nat, nat)>) {
    f.k == start.k && f.lanes == start.lanes && Programs.TripsAre(f.trips, 0, cuts)
  }

  /** After j outages the frontier the next one is attached to carries exactly those. */
  ghost predicate Tripped(cuts: seq<(nat, nat)>, j: nat, store: Store)
    requires |store.registers| == Machine.REGISTERS && j <= |cuts| && store.LaneAt(3)
  {
    && store.LaneAt(TripSource(j))
    && Trips(store.registers[3].frontier, store.registers[TripSource(j)].frontier, cuts[..j])
  }

  ghost predicate CutState(job: Job, g: Csr, seeds: set<nat>, ring: seq<nat>, j: nat, m: Moment)
    requires j <= |job.text.cuts|
  {
    job.At(2 * j + 3, m) && Ready(g, seeds, ring, m.store) && Tripped(job.text.cuts, j, m.store)
  }

  lemma SeededRings(f: LaneWalks.Frontier, seeds: set<nat>, ring: seq<nat>, nodes: nat)
    requires Machine.Seeded(f, Machine.Bitset(seeds), 0, 0, ring) && f.Valid(nodes)
    ensures Rings(f, seeds, ring, nodes)
  {
  }

  lemma GraphLoaded(job: Job, g: Csr, m: Moment, n: Moment)
    requires FollowsText(job) && job.At(0, m) && job.Follows(m, n)
    requires InlineData.ReadGraph(job.data, job.text.graph.0, job.text.graph.1) == Some(g)
    requires g.Valid() && g.NodeCount() == job.nodes
    ensures job.At(1, n) && n.store == m.store.(relations := m.store.relations[0 := g])
  {
    StepAt(job, 0, m, n, InitGraph(0, job.text.graph.0, job.text.graph.1));
  }

  lemma SetLoaded(job: Job, words: seq<nat>, m: Moment, n: Moment)
    requires FollowsText(job) && job.At(1, m) && job.Follows(m, n)
    requires InlineData.ReadWords(job.data, job.text.seeds.0, job.text.seeds.1) == Some(words)
    ensures job.At(2, n) && n.store == m.store.With(1, Machine.Bitset(SetOf(words)))
  {
    StepAt(job, 1, m, n, LoadSet(1, job.text.seeds.0, job.text.seeds.1));
  }

  lemma SeedsLoaded(job: Job, g: Csr, seeds: set<nat>, m: Moment, n: Moment)
    requires FollowsText(job) && job.At(1, m) && job.Follows(m, n) && Holds(job, g, seeds)
    ensures job.At(2, n) && n.store == m.store.With(1, Machine.Bitset(seeds))
  {
    SetLoaded(job, InlineData.ReadWords(job.data, job.text.seeds.0, job.text.seeds.1).value, m, n);
  }

  lemma LoadsDone(job: Job, g: Csr, seeds: set<nat>, trace: seq<Moment>)
    requires FollowsText(job) && job.IsRun(trace) && job.At(0, trace[0]) && Holds(job, g, seeds)
    ensures |trace| > 2 && job.At(2, trace[2])
    ensures 0 in trace[2].store.relations && trace[2].store.relations[0] == g
    ensures trace[2].store.registers[1] == Machine.Bitset(seeds)
  {
    GoesOn(job, trace, 0);
    GraphLoaded(job, g, trace[0], trace[1]);
    GoesOn(job, trace, 1);
    SeedsLoaded(job, g, seeds, trace[1], trace[2]);
  }

  /** The seeds line reads the bit set in R1 and writes one lane a seed to R3. */
  lemma SeedsDone(job: Job, seeds: set<nat>, m: Moment, n: Moment) returns (ring: seq<nat>)
    requires FollowsText(job) && job.At(2, m) && job.Follows(m, n)
    requires m.store.registers[1] == Machine.Bitset(seeds) && forall x :: x in seeds ==> x < job.nodes
    ensures job.At(3, n) && OnlyFrontier(m.store, n.store, 3)
    ensures Rings(n.store.registers[3].frontier, seeds, ring, job.nodes)
  {
    StepAt(job, 2, m, n, InitSeeds(3, 1, 0, 0));
    var f := n.store.registers[3].frontier;
    ring :| Machine.Seeded(f, Machine.Bitset(seeds), 0, 0, ring);
    SeededRings(f, seeds, ring, job.nodes);
  }

  /** Before the first outage the frontier carries none. */
  lemma NoneTripped(cuts: seq<(nat, nat)>, store: Store)
    requires |store.registers| == Machine.REGISTERS && store.LaneAt(3) && store.registers[3].frontier.trips == map[]
    ensures Tripped(cuts, 0, store)
  {
    Programs.NoTrips(0);
  }

  /** The first three lines. */
  lemma Prologue(job: Job, g: Csr, seeds: set<nat>, trace: seq<Moment>) returns (ring: seq<nat>)
    requires FollowsText(job) && job.IsRun(trace) && job.At(0, trace[0]) && Holds(job, g, seeds)
    ensures |trace| > 3 && CutState(job, g, seeds, ring, 0, trace[3])
    ensures LaneWalks.Ascending(seeds, ring) && |ring| == LaneWalks.Min(64, |seeds|)
  {
    LoadsDone(job, g, seeds, trace);
    GoesOn(job, trace, 2);
    ring := SeedsDone(job, seeds, trace[2], trace[3]);
    NoneTripped(job.text.cuts, trace[3].store);
  }

  /** Attaching one more outage. */
  lemma OneMoreTrip(start: LaneWalks.Frontier, f: LaneWalks.Frontier, h: LaneWalks.Frontier,
                    cuts: seq<(nat, nat)>, j: nat)
    requires j < |cuts| && Trips(start, f, cuts[..j]) && EdgesSet(f, h, 0, [cuts[j]])
    ensures Trips(start, h, cuts[..j + 1])
  {
    Programs.TripsNext(f.trips, h.trips, 0, cuts[..j], cuts[j]);
    assert cuts[..j + 1] == cuts[..j] + [cuts[j]];
  }

  /** Writing another register than R3 leaves the seeded frontier and the graph. */
  lemma ReadyKept(g: Csr, seeds: set<nat>, ring: seq<nat>, s: Store, t: Store, dst: nat)
    requires |s.registers| == Machine.REGISTERS && Ready(g, seeds, ring, s)
    requires Only(s, t, dst) && dst != 3
    ensures Ready(g, seeds, ring, t) && t.registers[3] == s.registers[3]
  {
  }

  /** Between the two lines of outage j: its edge is in R2. */
  ghost predicate EdgeState(job: Job, g: Csr, seeds: set<nat>, ring: seq<nat>, j: nat, m: Moment)
    requires j < |job.text.cuts|
  {
    && job.At(2 * j + 4, m) && Ready(g, seeds, ring, m.store) && Tripped(job.text.cuts, j, m.store)
    && m.store.registers[2] == Machine.Int64(job.text.cuts[j].1)
  }

  lemma EdgeDone(job: Job, j: nat, m: Moment, n: Moment)
    requires FollowsText(job) && j < |job.text.cuts| && job.At(2 * j + 3, m) && job.Follows(m, n)
    ensures job.At(2 * j + 4, n) && n.store == m.store.With(2, Machine.Int64(job.text.cuts[j].1))
  {
    OutageOps(job.text, j);
    StepAt(job, 2 * j + 3, m, n, LoadInt(2, job.text.cuts[j].1));
  }

  lemma EdgeKept(cuts: seq<(nat, nat)>, j: nat, s: Store, v: Machine.Value)
    requires |s.registers| == Machine.REGISTERS && s.LaneAt(3) && j <= |cuts| && Tripped(cuts, j, s)
    ensures s.With(2, v).LaneAt(3) && Tripped(cuts, j, s.With(2, v))
  {
  }

  lemma EdgeStep(job: Job, g: Csr, seeds: set<nat>, ring: seq<nat>, j: nat, m: Moment, n: Moment)
    requires FollowsText(job) && j < |job.text.cuts|
    requires CutState(job, g, seeds, ring, j, m) && job.Follows(m, n)
    ensures EdgeState(job, g, seeds, ring, j, n)
  {
    EdgeDone(job, j, m, n);
    ReadyKept(g, seeds, ring, m.store, n.store, 2);
    EdgeKept(job.text.cuts, j, m.store, Machine.Int64(job.text.cuts[j].1));
  }

  lemma NextTripped(cuts: seq<(nat, nat)>, j: nat, s: Store, t: Store)
    requires |s.registers| == Machine.REGISTERS && s.LaneAt(3) && j < |cuts|
    requires Tripped(cuts, j, s) && OnlyFrontier(s, t, 4)
    requires EdgesSet(s.registers[TripSource(j)].frontier, t.registers[4].frontier, 0, [cuts[j]])
    ensures Tripped(cuts, j + 1, t)
  {
    OneMoreTrip(s.registers[3].frontier, s.registers[TripSource(j)].frontier, t.registers[4].frontier, cuts, j);
  }

  /** An outage whose edge is in R2 and whose frontier is in place does not fault. */
  lemma TripRuns(job: Job, c: (nat, nat), src: nat, s: Store)
    requires |s.registers| == Machine.REGISTERS && s.LaneAt(src) && c.0 < 64
    requires s.registers[2] == Machine.Int64(c.1)
    ensures s.registers[2].Cuts(c.0) == Some([c])
    ensures Fault(SetEdges(4, src, 2, 0, c.0), job.data, job.nodes, s).None?
  {
    assert s.registers[2].Cuts(c.0) == Some([c]);
  }

  lemma TripDone(job: Job, j: nat, m: Moment, n: Moment)
    requires FollowsText(job) && j < |job.text.cuts| && job.At(2 * j + 4, m) && job.Follows(m, n)
    requires m.store.registers[2] == Machine.Int64(job.text.cuts[j].1) && m.store.LaneAt(TripSource(j))
    ensures job.At(2 * j + 5, n) && OnlyFrontier(m.store, n.store, 4)
    ensures EdgesSet(m.store.registers[TripSource(j)].frontier, n.store.registers[4].frontier, 0, [job.text.cuts[j]])
  {
    var c, src := job.text.cuts[j], TripSource(j);
    TripRuns(job, c, src, m.store);
    OutageOps(job.text, j);
    StepAt(job, 2 * j + 4, m, n, SetEdges(4, src, 2, 0, c.0));
  }

  lemma TripStep(job: Job, g: Csr, seeds: set<nat>, ring: seq<nat>, j: nat, m: Moment, n: Moment)
    requires FollowsText(job) && j < |job.text.cuts|
    requires EdgeState(job, g, seeds, ring, j, m) && job.Follows(m, n)
    ensures CutState(job, g, seeds, ring, j + 1, n)
  {
    TripDone(job, j, m, n);
    NextTripped(job.text.cuts, j, m.store, n.store);
    ReadyKept(g, seeds, ring, m.store, n.store, 4);
  }

  /** The two lines of outage j. */
  lemma CutStep(job: Job, g: Csr, seeds: set<nat>, ring: seq<nat>, trace: seq<Moment>, j: nat, k: nat)
    requires FollowsText(job) && job.IsRun(trace) && j < |job.text.cuts| && k == 2 * j + 3 < |trace|
    requires CutState(job, g, seeds, ring, j, trace[k])
    ensures k + 2 < |trace| && CutState(job, g, seeds, ring, j + 1, trace[k + 2])
  {
    GoesOn(job, trace, k);
    EdgeStep(job, g, seeds, ring, j, trace[k], trace[k + 1]);
    GoesOn(job, trace, k + 1);
    TripStep(job, g, seeds, ring, j, trace[k + 1], trace[k + 2]);
  }

  lemma {:induction false} CutsDone(job: Job, g: Csr, seeds: set<nat>, ring: seq<nat>, trace: seq<Moment>, j: nat)
    requires FollowsText(job) && job.IsRun(trace) && j <= |job.text.cuts|
    requires |trace| > 3 && CutState(job, g, seeds, ring, 0, trace[3])
    ensures |trace| > 2 * j + 3 && CutState(job, g, seeds, ring, j, trace[2 * j + 3])
  {
    if j > 0 {
      CutsDone(job, g, seeds, ring, trace, j - 1);
      CutStep(job, g, seeds, ring, trace, j - 1, 2 * j + 1);
    }
  }

  // ---- The result ----

  lemma WalkStep(job: Job, g: Csr, seeds: set<nat>, ring: seq<nat>, m: Moment, n: Moment)
    requires FollowsText(job) && g.Valid() && g.NodeCount() == job.nodes
    requires CutState(job, g, seeds, ring, |job.text.cuts|, m) && job.Follows(m, n)
    ensures job.At(2 * |job.text.cuts| + 4, n) && n.store.LaneAt(5)
    ensures Machine.LaneWalked(g, 0, Machine.FIXPOINT, false,
                               m.store.registers[4].frontier, n.store.registers[5].frontier)
  {
    var k := 2 * |job.text.cuts| + 3;
    LastOps(job.text);
    StepAt(job, k, m, n, Walk(5, 4, 0, 4, false));
  }

  lemma ReduceStep(job: Job, m: Moment, n: Moment)
    requires FollowsText(job) && job.At(2 * |job.text.cuts| + 4, m) && m.store.LaneAt(5) && job.Follows(m, n)
    ensures job.At(2 * |job.text.cuts| + 5, n) && n.store.registers[6].Int64?
    ensures MissesSome(m.store.registers[5].frontier, job.nodes, job.text.maxNodes, n.store.registers[6].n)
    ensures n.store.zf <==> n.store.registers[6].n == 0
  {
    var k := 2 * |job.text.cuts| + 4;
    LastOps(job.text);
    StepAt(job, k, m, n, Islanded(6, 5, job.text.maxNodes));
  }

  lemma HaltStep(job: Job, m: Moment, n: Moment)
    requires FollowsText(job) && job.At(2 * |job.text.cuts| + 5, m) && job.Follows(m, n)
    ensures n.store == m.store && n.control.status == Execution.Ok
  {
    var k := 2 * |job.text.cuts| + 5;
    LastOps(job.text);
    StepAt(job, k, m, n, Halt);
  }

  /** Bit b of r is set exactly when outage scenario b islands some checked bus from seed b. */
  ghost predicate Screens(g: Csr, ring: seq<nat>, cuts: seq<(nat, nat)>, maxNodes: nat, r: nat)
    requires g.Valid()
  {
    forall b: nat :: Binary.Bit(r, b) <==> b < |ring| && Programs.Islanded(g, cuts, b, ring[b], maxNodes)
  }

  lemma WalkedScreens(g: Csr, seeds: set<nat>, ring: seq<nat>, cuts: seq<(nat, nat)>, maxNodes: nat, r: nat,
                      start: LaneWalks.Frontier, tripped: LaneWalks.Frontier, walked: LaneWalks.Frontier)
    requires g.Valid() && Rings(start, seeds, ring, g.NodeCount()) && Trips(start, tripped, cuts)
    requires Machine.LaneWalked(g, 0, Machine.FIXPOINT, false, tripped, walked)
    requires MissesSome(walked, g.NodeCount(), maxNodes, r)
    ensures Screens(g, ring, cuts, maxNodes, r)
  {
    forall b: nat | b < |ring|
      ensures (exists u :: 0 <= u < g.NodeCount() && (maxNodes == 0 || u < maxNodes) && u !in walked.Nodes(b))
         <==> Programs.Islanded(g, cuts, b, ring[b], maxNodes)
    {
      assert tripped.Nodes(b) == start.Nodes(b) == {ring[b]};
      Programs.WalkedIsIslanded(g, cuts, tripped, walked, b, ring[b], maxNodes);
    }
  }

  /** R6 holds what the lanes of f miss. */
  ghost predicate Reduced(job: Job, f: LaneWalks.Frontier, u: Store) {
    && |u.registers| == Machine.REGISTERS && u.registers[6].Int64?
    && MissesSome(f, job.nodes, job.text.maxNodes, u.registers[6].n) && (u.zf <==> u.registers[6].n == 0)
  }

  lemma LastSteps(job: Job, p: Moment, q: Moment, r: Moment)
    requires FollowsText(job) && job.At(2 * |job.text.cuts| + 4, p) && p.store.LaneAt(5)
    requires job.Follows(p, q) && job.Follows(q, r)
    ensures r.control.status == Execution.Ok && Reduced(job, p.store.registers[5].frontier, r.store)
  {
    ReduceStep(job, p, q);
    HaltStep(job, q, r);
  }

  lemma ReduceRuns(job: Job, p: Moment, q: Moment)
    requires FollowsText(job) && job.At(2 * |job.text.cuts| + 4, p) && p.store.LaneAt(5) && job.Follows(p, q)
    ensures q.control.status == Execution.Running
  {
    ReduceStep(job, p, q);
  }

  lemma StopsThere(job: Job, trace: seq<Moment>, k: nat)
    requires job.IsRun(trace) && k < |trace| && trace[k].control.status != Execution.Running
    ensures |trace| == k + 1
  {
    StillRunning(job, trace, k);
  }

  lemma StillRunning(job: Job, trace: seq<Moment>, k: nat)
    requires job.IsRun(trace)
    ensures k + 1 < |trace| ==> trace[k].control.status == Execution.Running
  {
    assert k + 1 < |trace| ==> job.Follows(trace[k], trace[k + 1]);
  }

  /** The lines after the outages: walk, reduce, halt. */
  lemma EpilogueSteps(job: Job, g: Csr, seeds: set<nat>, ring: seq<nat>, trace: seq<Moment>, k: nat)
    requires FollowsText(job) && job.IsRun(trace) && g.Valid() && g.NodeCount() == job.nodes
    requires k == 2 * |job.text.cuts| + 3 < |trace| && CutState(job, g, seeds, ring, |job.text.cuts|, trace[k])
    ensures |trace| == k + 4 && trace[k + 3].control.status == Execution.Ok
    ensures Ended(job, g, trace[k].store, trace[k + 1].store, trace[k + 3].store)
  {
    GoesOn(job, trace, k);
    WalkStep(job, g, seeds, ring, trace[k], trace[k + 1]);
    GoesOn(job, trace, k + 1);
    ReduceRuns(job, trace[k + 1], trace[k + 2]);
    GoesOn(job, trace, k + 2);
    LastSteps(job, trace[k + 1], trace[k + 2], trace[k + 3]);
    StopsThere(job, trace, k + 3);
  }

  /** s before the walk, t after it, and the last store u. */
  ghost predicate Ended(job: Job, g: Csr, s: Store, t: Store, u: Store)
    requires g.Valid()
  {
    && |s.registers| == |t.registers| == Machine.REGISTERS && s.LaneAt(4) && t.LaneAt(5)
    && Machine.LaneWalked(g, 0, Machine.FIXPOINT, false, s.registers[4].frontier, t.registers[5].frontier)
    && Reduced(job, t.registers[5].frontier, u)
  }

  lemma EndedResult(job: Job, g: Csr, seeds: set<nat>, ring: seq<nat>, m: Moment, t: Store, u: Store)
    requires g.Valid() && g.NodeCount() == job.nodes && job.text.cuts != []
    requires CutState(job, g, seeds, ring, |job.text.cuts|, m) && Ended(job, g, m.store, t, u)
    ensures Result(job, g, ring, u)
  {
    var cuts := job.text.cuts;
    assert cuts[..|cuts|] == cuts;
    WalkedScreens(g, seeds, ring, cuts, job.text.maxNodes, u.registers[6].n,
                  m.store.registers[3].frontier, m.store.registers[4].frontier, t.registers[5].frontier);
  }

  /** R6 ends as the screening mask and ZF says whether it is empty. */
  ghost predicate Result(job: Job, g: Csr, ring: seq<nat>, store: Store)
    requires g.Valid()
  {
    && |store.registers| == Machine.REGISTERS && store.registers[6].Int64?
    && Screens(g, ring, job.text.cuts, job.text.maxNodes, store.registers[6].n)
    && (store.zf <==> store.registers[6].n == 0)
  }

  /** Up to the walk. */
  lemma RunTrips(job: Job, g: Csr, seeds: set<nat>, trace: seq<Moment>) returns (ring: seq<nat>)
    requires FollowsText(job) && job.IsRun(trace) && job.At(0, trace[0]) && Holds(job, g, seeds)
    ensures LaneWalks.Ascending(seeds, ring) && |ring| == LaneWalks.Min(64, |seeds|)
    ensures 2 * |job.text.cuts| + 3 < |trace|
    ensures CutState(job, g, seeds, ring, |job.text.cuts|, trace[2 * |job.text.cuts| + 3])
  {
    ring := Prologue(job, g, seeds, trace);
    CutsDone(job, g, seeds, ring, trace, |job.text.cuts|);
  }

  /** Every run of the emitted text halts normally with the screening mask of the graph in its data section. */
  lemma RunScreens(job: Job, g: Csr, seeds: set<nat>, trace: seq<Moment>) returns (ring: seq<nat>)
    requires FollowsText(job) && job.IsRun(trace) && job.At(0, trace[0]) && Holds(job, g, seeds)
    ensures LaneWalks.Ascending(seeds, ring) && |ring| == LaneWalks.Min(64, |seeds|)
    ensures trace[|trace| - 1].control.status == Execution.Ok
    ensures Result(job, g, ring, trace[|trace| - 1].store)
  {
    ring := RunTrips(job, g, seeds, trace);
    var k := 2 * |job.text.cuts| + 3;
    EpilogueSteps(job, g, seeds, ring, trace, k);
    EndedResult(job, g, seeds, ring, trace[k], trace[k + 1].store, trace[k + 3].store);
  }

  // ---- In terms of the text ----

  /** The number of the edge written k-th in row u, counting through all rows in order. */
  function EdgeNumber(rows: seq<seq<int>>, u: nat, k: nat): nat
    requires u <= |rows|
  {
    |Concat(rows[..u])| + k
  }

  /** The text lists an edge from u to v that is not out of service. */
  ghost predicate ListsInService(rows: seq<seq<int>>, out: set<nat>, u: nat, v: nat) {
    u < |rows| && exists k :: 0 <= k < |rows[u]| && rows[u][k] == v && EdgeNumber(rows, u, k) !in out
  }

  /** The arcs written in the text, less the edges out of service. */
  ghost function TextArcs(rows: seq<seq<int>>, out: set<nat>): set<Arc> {
    set u: nat, v: nat | u < |rows| && v < |rows| && ListsInService(rows, out, u, v) :: (u, v)
  }

  /** Counting through the rows is the graph's own edge numbering. */
  lemma EdgeInRow(g: Csr, rows: seq<seq<int>>, u: nat, k: nat, e: nat)
    requires g.Valid() && InlineData.IsCsrOf(g, rows) && u < |rows| && k < |rows[u]| && e == EdgeNumber(rows, u, k)
    ensures g.InRow(e, u) && e < g.EdgeCount() && g.targets[e] == rows[u][k]
  {
    InlineData.RowsOfCsr(rows, g);
    assert g.offsets[u] == |Concat(rows[..u])|;
    assert InlineData.HasRow(g, u, rows[u]);
  }

  /** The edge with that number runs where the text says. */
  lemma EdgeOfText(g: Csr, rows: seq<seq<int>>, u: nat, k: nat)
    requires g.Valid() && InlineData.IsCsrOf(g, rows) && u < |rows| && k < |rows[u]|
    ensures EdgeNumber(rows, u, k) < g.EdgeCount() && rows[u][k] >= 0
    ensures g.Ends(EdgeNumber(rows, u, k), false) == (u, rows[u][k])
  {
    var e := EdgeNumber(rows, u, k);
    EdgeInRow(g, rows, u, k, e);
    g.RowIsUnique(e, u);
  }

  /** Every edge is written somewhere in the text. */
  lemma TextOfEdge(g: Csr, rows: seq<seq<int>>, e: nat) returns (u: nat, k: nat)
    requires g.Valid() && InlineData.IsCsrOf(g, rows) && e < g.EdgeCount()
    ensures u < |rows| && k < |rows[u]| && e == EdgeNumber(rows, u, k)
  {
    InlineData.RowsOfCsr(rows, g);
    u := g.Row(e);
    assert InlineData.HasRow(g, u, rows[u]);
    k := e - g.offsets[u];
  }

  lemma ArcInText(g: Csr, rows: seq<seq<int>>, out: set<nat>, u: nat, v: nat)
    requires g.Valid() && InlineData.IsCsrOf(g, rows)
    ensures (u, v) in Programs.Surviving(g, out) <==> ListsInService(rows, out, u, v)
  {
    if ListsInService(rows, out, u, v) {
      var k :| 0 <= k < |rows[u]| && rows[u][k] == v && EdgeNumber(rows, u, k) !in out;
      EdgeOfText(g, rows, u, k);
      assert g.Ends(EdgeNumber(rows, u, k), false) == (u, v);
    }
    if (u, v) in Programs.Surviving(g, out) {
      var e :| 0 <= e < g.EdgeCount() && e !in out && g.Ends(e, false) == (u, v);
      var w, k := TextOfEdge(g, rows, e);
      EdgeOfText(g, rows, w, k);
    }
  }

  /** The arcs the machine walks in a scenario are those of the text. */
  lemma SurvivingIsText(g: Csr, rows: seq<seq<int>>, out: set<nat>)
    requires g.Valid() && InlineData.IsCsrOf(g, rows)
    ensures Programs.Surviving(g, out) == TextArcs(rows, out)
  {
    forall u: nat, v: nat ensures (u, v) in Programs.Surviving(g, out) <==> (u, v) in TextArcs(rows, out) {
      ArcInText(g, rows, out, u, v);
    }
  }

  /** Outage scenario b leaves some checked bus unreachable from its seed over the text's arcs. */
  ghost predicate IslandedInText(rows: seq<seq<int>>, cuts: seq<(nat, nat)>, b: nat, seed: nat, maxNodes: nat) {
    exists u :: 0 <= u < |rows| && (maxNodes == 0 || u < maxNodes)
                && !Reaches(TextArcs(rows, Programs.Outages(cuts, b)), {seed}, u)
  }

  lemma IslandedIsText(g: Csr, rows: seq<seq<int>>, cuts: seq<(nat, nat)>, b: nat, seed: nat, maxNodes: nat)
    requires g.Valid() && InlineData.IsCsrOf(g, rows)
    ensures Programs.Islanded(g, cuts, b, seed, maxNodes) <==> IslandedInText(rows, cuts, b, seed, maxNodes)
  {
    SurvivingIsText(g, rows, Programs.Outages(cuts, b));
  }

  /** The graph block i and the seed block s of a text, with symbols that fit and targets and seeds that exist. */
  ghost predicate IsScreening(blocks: seq<InlineData.Block>, i: nat, s: nat) {
    && InlineData.AllPackable(blocks) && i < |blocks| && s < |blocks| && blocks[i].Graph? && blocks[s].Values?
    && InlineData.IsLast(blocks, blocks[i].name, i) && InlineData.IsLast(blocks, blocks[s].name, s)
    && Loading.TargetsAreNodes(blocks[i].rows)
    && forall w :: w in blocks[s].words ==> 0 <= w < |blocks[i].rows|
  }

  /** The text's seeds as a set. */
  ghost function SeedSet(blocks: seq<InlineData.Block>, i: nat, s: nat): set<nat>
    requires IsScreening(blocks, i, s)
  {
    set w: nat | w < |blocks[i].rows| && w in blocks[s].words
  }

  /** The data section holds the text's graph and seeds where its symbols say. */
  lemma DataHolds(job: Job, blocks: seq<InlineData.Block>, i: nat, s: nat) returns (g: Csr)
    requires IsScreening(blocks, i, s) && job.data == InlineData.Data(blocks) && job.nodes == |blocks[i].rows|
    requires job.text.graph == (InlineData.Start(blocks, i), blocks[i].Count())
    requires job.text.seeds == (InlineData.Start(blocks, s), blocks[s].Count())
    ensures g.Valid() && InlineData.IsCsrOf(g, blocks[i].rows)
    ensures Holds(job, g, SeedSet(blocks, i, s))
  {
    InlineData.BlockReadsBack(blocks, i);
    InlineData.BlockReadsBack(blocks, s);
    g := InlineData.ReadGraph(job.data, job.text.graph.0, job.text.graph.1).value;
    Loading.SourceArcs(g, blocks[i].rows);
    var words := InlineData.ReadWords(job.data, job.text.seeds.0, job.text.seeds.1).value;
    assert forall w :: w in words <==> w in blocks[s].words;
    assert SeedSet(blocks, i, s) == SetOf(words);
  }

  /**
   * From text to answer: assembling the blocks, emitting the lines and running the emitted words on the
   * assembled data leaves in R6 the mask of the outage scenarios that, over the arcs written in the text,
   * leave some checked bus unreachable from the scenario's seed.
   */
  method AssembleAndScreen(vm: Machine.Vm, blocks: seq<InlineData.Block>, i: nat, s: nat, cuts: seq<(nat, nat)>,
                           maxNodes: nat, target: Execution.Target, budget: nat)
    returns (status: Execution.Status, ghost ring: seq<nat>)
    requires vm.Valid() && IsScreening(blocks, i, s) && vm.nodes == |blocks[i].rows|
    requires Text((InlineData.Start(blocks, i), blocks[i].Count()),
                  (InlineData.Start(blocks, s), blocks[s].Count()), cuts, maxNodes).Encodes()
    requires budget >= 2 * |cuts| + 6
    modifies vm
    ensures vm.Valid() && status == Execution.Ok && vm.registers[6].Int64?
    ensures LaneWalks.Ascending(SeedSet(blocks, i, s), ring) && |ring| == LaneWalks.Min(64, |SeedSet(blocks, i, s)|)
    ensures forall b: nat :: Binary.Bit(vm.registers[6].n, b) <==>
              b < |ring| && IslandedInText(blocks[i].rows, cuts, b, ring[b], maxNodes)
    ensures vm.zf <==> vm.registers[6].n == 0
  {
    var assembler := new InlineData.Assembler();
    var ok := assembler.Assemble(blocks);
    InlineData.SymbolIsLast(blocks, blocks[i].name, i);
    InlineData.SymbolIsLast(blocks, blocks[s].name, s);
    var text := Text(assembler.symbols[blocks[i].name], assembler.symbols[blocks[s].name], cuts, maxNodes);
    var instructions := Emit(text.Lines());
    ghost var trace;
    ghost var heads := seq(text.Length() + 1, (k: nat) requires k <= text.Length() => Head(text.Lines(), k));
    ghost var job := Job(text, heads, instructions, assembler.data, vm.nodes, target, budget);
    EmittedFollowsText(job);
    status, trace := Interpret(vm, instructions, assembler.data, target, budget);
    ghost var g := DataHolds(job, blocks, i, s);
    ring := RunScreens(job, g, SeedSet(blocks, i, s), trace);
    forall b: nat | b < |ring|
      ensures Programs.Islanded(g, cuts, b, ring[b], maxNodes)
         <==> IslandedInText(blocks[i].rows, cuts, b, ring[b], maxNodes)
    {
      IslandedIsText(g, blocks[i].rows, cuts, b, ring[b], maxNodes);
    }
  }
}
