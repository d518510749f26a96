/** From an inline graph in the assembly text to the topology the machine walks. */
module Loading {
  import Graphs
  import InlineData
  import Instructions
  import Machine
  import Sequences

  /** The arcs a source graph lists: u -> v for each v in row u. */
  ghost predicate ListsArc(rows: seq<seq<int>>, u: nat, v: nat) {
    u < |rows| && v in rows[u]
  }

  ghost predicate TargetsAreNodes(rows: seq<seq<int>>) {
    forall u, k :: 0 <= u < |rows| && 0 <= k < |rows[u]| ==> rows[u][k] < |rows|
  }

  lemma {:induction false} TargetsOfRows(rows: seq<seq<int>>, g: Graphs.Csr)
    requires g.targets == Sequences.Concat(rows) && TargetsAreNodes(rows)
    ensures InlineData.TargetsBelow(g, |rows|)
  {
    Sequences.ConcatAll(rows, (t: int) => t < |rows|);
  }

  /** A graph that has the source's rows has exactly the source's arcs. */
  lemma RowsGiveArcs(g: Graphs.Csr, rows: seq<seq<int>>, u: nat, v: nat)
    requires g.Valid() && InlineData.HasRows(g, rows)
    ensures (u, v) in Machine.Topology(g) <==> ListsArc(rows, u, v)
  {
    if ListsArc(rows, u, v) {
      var k :| 0 <= k < |rows[u]| && rows[u][k] == v;
      assert InlineData.HasRow(g, u, rows[u]);
      var e := g.offsets[u] + k;
      g.RowIsUnique(e, u);
      assert g.Ends(e, false) == (u, v);
    }
    if (u, v) in Machine.Topology(g) {
      var e :| 0 <= e < g.EdgeCount() && g.Ends(e, false) == (u, v);
      assert g.InRow(e, u) && InlineData.HasRow(g, u, rows[u]);
      assert rows[u][e - g.offsets[u]] == v;
    }
  }

  lemma {:induction false} SourceArcs(g: Graphs.Csr, rows: seq<seq<int>>)
    requires InlineData.IsCsrOf(g, rows) && TargetsAreNodes(rows)
    ensures g.Valid() && g.NodeCount() == |rows|
    ensures forall u: nat, v: nat :: (u, v) in Machine.Topology(g) <==> ListsArc(rows, u, v)
  {
    TargetsOfRows(rows, g);
    InlineData.CsrValidity(rows, g);
    InlineData.RowsOfCsr(rows, g);
    forall u: nat, v: nat ensures (u, v) in Machine.Topology(g) <==> ListsArc(rows, u, v) {
      RowsGiveArcs(g, rows, u, v);
    }
  }

  /**
   * The graph INIT_MOCK_GRAPH finds through the operands its line is decoded with, in the data section
   * of all blocks, is valid and has exactly the arcs written in the assembly text.
   */
  lemma {:induction false} LoadedGraphHasSourceArcs(lines: seq<Instructions.Line>, j: nat,
                                                    blocks: seq<InlineData.Block>, i: nat, at: nat, n: nat)
    requires InlineData.AllPackable(blocks) && InlineData.Refers(lines, j, blocks, i)
    requires InlineData.DecodedHalves(lines, j) == [at, n]
    requires blocks[i].Graph? && TargetsAreNodes(blocks[i].rows)
    ensures InlineData.ReadGraph(InlineData.Data(blocks), at, n).Some?
    ensures var g, rows := InlineData.ReadGraph(InlineData.Data(blocks), at, n).value, blocks[i].rows;
            && g.Valid() && g.NodeCount() == |rows|
            && forall u: nat, v: nat :: (u, v) in Machine.Topology(g) <==> ListsArc(rows, u, v)
  {
    InlineData.SymbolFindsBlock(lines, j, blocks, i, at, n);
    SourceArcs(InlineData.ReadGraph(InlineData.Data(blocks), at, n).value, blocks[i].rows);
  }
}
