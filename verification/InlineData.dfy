/** Inline graphs and arrays: packing them into one data section and finding them again by symbol. */
module InlineData {
  import opened Binary
  import opened Bytes
  import opened Graphs
  import opened Instructions
  import opened Operands
  import opened Options
  import opened Sequences

  /** A `.csr_inline` block, or an array block given by its 32-bit words (floats by their bit patterns). */
  datatype Block = Graph(name: string, rows: seq<seq<int>>) | Values(name: string, words: seq<int>) {

    /** The words written: row offsets, then targets; or the array. */
    function Content(): seq<int> {
      match this
      case Graph(_, rows) => Offsets(rows) + Concat(rows)
      case Values(_, words) => words
    }

    /** The count stored with the symbol: nodes or elements. */
    function Count(): nat {
      match this
      case Graph(_, rows) => |rows|
      case Values(_, words) => |words|
    }

    /** struct.pack("<I", ...) accepts every word. */
    predicate Packable() {
      forall w :: w in Content() ==> 0 <= w < 0x1_0000_0000
    }
  }

  predicate IsWord(w: int) {
    0 <= w < 0x1_0000_0000
  }

  function Offsets(rows: seq<seq<int>>): (offs: seq<int>)
    ensures |offs| == |rows| + 1
  {
    seq(|rows| + 1, (r: nat) requires r <= |rows| => |Concat(rows[..r])|)
  }

  /** struct.pack("<I", w); the bytes of an unpackable word are never used. */
  function WordBytes(w: int): (s: seq<byte>)
    ensures |s| == 4
  {
    Le(if w < 0 then 0 else w, 4)
  }

  function Encoded(words: seq<int>): seq<byte> {
    Concat(seq(|words|, (i: nat) requires i < |words| => WordBytes(words[i])))
  }

  /** The bytes of each block. */
  function Pieces(blocks: seq<Block>): (pieces: seq<seq<byte>>)
    ensures |pieces| == |blocks|
  {
    seq(|blocks|, (i: nat) requires i < |blocks| => Encoded(blocks[i].Content()))
  }

  /** The data section of a list of blocks. */
  function Data(blocks: seq<Block>): seq<byte> {
    Concat(Pieces(blocks))
  }

  /** Symbol table: name to byte offset and count; a repeated name keeps its last block. */
  function Symbols(blocks: seq<Block>): map<string, (nat, nat)> {
    if blocks == [] then map[]
    else
      var n := |blocks| - 1;
      Symbols(blocks[..n])[blocks[n].name := (|Data(blocks[..n])|, blocks[n].Count())]
  }

  // ---- The assembler's passes ----

  /** Row offsets, all targets in row order, and the number of rows. */
  method CollectRows(rows: seq<seq<int>>) returns (offsets: seq<int>, targets: seq<int>, nodes: nat)
    ensures offsets == Offsets(rows) && targets == Concat(rows) && nodes == |rows|
  {
    offsets, targets, nodes := [0], [], 0;
    for r := 0 to |rows|
      invariant targets == Concat(rows[..r]) && nodes == r
      invariant offsets == Offsets(rows)[..r + 1]
    {
      ConcatNext(rows, r);
      targets := targets + rows[r];
      offsets := offsets + [|targets|];
      nodes := nodes + 1;
    }
    assert rows[..|rows|] == rows;
  }

  class Assembler {
    var data: seq<byte>
    var symbols: map<string, (nat, nat)>

    constructor ()
      ensures data == [] && symbols == map[]
    {
      data, symbols := [], map[];
    }

    /** Appends words one by one; false where struct.pack raises. */
    method PackWords(words: seq<int>) returns (ok: bool)
      modifies this`data
      ensures ok <==> forall w :: w in words ==> 0 <= w < 0x1_0000_0000
      ensures ok ==> data == old(data) + Encoded(words)
    {
      for i := 0 to |words|
        invariant forall j :: 0 <= j < i ==> IsWord(words[j])
        invariant data == old(data) + Encoded(words[..i])
      {
        if !IsWord(words[i]) {
          assert words[i] in words;
          return false;
        }
        EncodedNext(words, i);
        data := data + WordBytes(words[i]);
      }
      assert words[..|words|] == words;
      ok := true;
    }

    /** One `.csr_inline` block. */
    method AddGraph(name: string, rows: seq<seq<int>>) returns (ok: bool)
      modifies this
      ensures ok <==> Graph(name, rows).Packable()
      ensures ok ==> data == old(data) + Encoded(Graph(name, rows).Content())
      ensures ok ==> symbols == old(symbols)[name := (|old(data)|, |rows|)]
    {
      ghost var before := data;
      var start := |data|;
      var offsets, targets, nodes := CollectRows(rows);
      assert forall w :: w in Graph(name, rows).Content() <==> w in offsets || w in targets;
      ok := PackWords(offsets);
      if !ok {
        return;
      }
      ok := PackWords(targets);
      if ok {
        EncodedConcat(offsets, targets);
        assert data == before + (Encoded(offsets) + Encoded(targets));
        symbols := symbols[name := (start, nodes)];
      }
    }

    /** Appends zero bytes up to a multiple of four. */
    method Pad()
      modifies this`data
      ensures data == Aligned(old(data), 4)
    {
      ghost var n := |data|;
      while |data| % 4 != 0
        invariant n <= |data| <= RoundUp(n, 4)
        invariant data == old(data) + ZeroBytes(|data| - n)
        decreases RoundUp(n, 4) - |data|
      {
        data := data + [0];
      }
    }

    /** One array or set block, after padding. */
    method AddValues(name: string, words: seq<int>) returns (ok: bool)
      modifies this
      ensures ok <==> Values(name, words).Packable()
      ensures ok ==> data == Aligned(old(data), 4) + Encoded(words)
      ensures ok ==> symbols == old(symbols)[name := (|Aligned(old(data), 4)|, |words|)]
    {
      Pad();
      var start := |data|;
      assert Values(name, words).Content() == words;
      ok := PackWords(words);
      symbols := symbols[name := (start, |words|)];
    }

    method AddBlock(block: Block) returns (ok: bool)
      requires |data| % 4 == 0
      modifies this
      ensures ok <==> block.Packable()
      ensures ok ==> data == old(data) + Encoded(block.Content())
      ensures ok ==> symbols == old(symbols)[block.name := (|old(data)|, block.Count())]
    {
      match block {
        case Graph(name, rows) => ok := AddGraph(name, rows);
        case Values(name, words) => ok := AddValues(name, words);
      }
    }

    /** All blocks in the order they are scanned; false where the assembler raises. */
    method Assemble(blocks: seq<Block>) returns (ok: bool)
      requires data == [] && symbols == map[]
      modifies this
      ensures ok <==> AllPackable(blocks)
      ensures ok ==> data == Data(blocks) && symbols == Symbols(blocks)
    {
      for i := 0 to |blocks|
        invariant AllPackable(blocks[..i])
        invariant data == Data(blocks[..i]) && symbols == Symbols(blocks[..i])
      {
        DataLength(blocks[..i]);
        BlocksNext(blocks, i);
        PackableNext(blocks, i);
        ok := AddBlock(blocks[i]);
        if !ok {
          UnpackablePrefix(blocks, i + 1);
          return;
        }
      }
      assert blocks[..|blocks|] == blocks;
      ok := true;
    }
  }

  predicate AllPackable(blocks: seq<Block>) {
    forall b :: b in blocks ==> b.Packable()
  }

  lemma PackableNext(blocks: seq<Block>, i: nat)
    requires i < |blocks|
    ensures AllPackable(blocks[..i + 1]) <==> AllPackable(blocks[..i]) && blocks[i].Packable()
  {
    assert blocks[..i + 1] == blocks[..i] + [blocks[i]];
  }

  lemma UnpackablePrefix(blocks: seq<Block>, i: nat)
    requires i <= |blocks| && !AllPackable(blocks[..i])
    ensures !AllPackable(blocks)
  {
    var b :| b in blocks[..i] && !b.Packable();
    assert b in blocks;
  }

  lemma BlocksNext(blocks: seq<Block>, i: nat)
    requires i < |blocks|
    ensures Data(blocks[..i + 1]) == Data(blocks[..i]) + Encoded(blocks[i].Content())
    ensures Symbols(blocks[..i + 1])
         == Symbols(blocks[..i])[blocks[i].name := (|Data(blocks[..i])|, blocks[i].Count())]
  {
    var pieces := Pieces(blocks);
    assert Pieces(blocks[..i + 1]) == pieces[..i + 1] && Pieces(blocks[..i]) == pieces[..i];
    ConcatNext(pieces, i);
    assert blocks[..i + 1][..i] == blocks[..i];
  }

  lemma EncodedNext(words: seq<int>, i: nat)
    requires i < |words|
    ensures Encoded(words[..i + 1]) == Encoded(words[..i]) + WordBytes(words[i])
  {
    var parts := seq(i + 1, (j: nat) requires j < i + 1 => WordBytes(words[..i + 1][j]));
    assert parts[..i] == seq(i, (j: nat) requires j < i => WordBytes(words[..i][j]));
  }

  lemma {:induction false} EncodedLength(words: seq<int>)
    ensures |Encoded(words)| == 4 * |words|
  {
    if words != [] {
      var n := |words| - 1;
      EncodedNext(words, n);
      EncodedLength(words[..n]);
      assert words[..n + 1] == words;
    }
  }

  lemma EncodedConcat(x: seq<int>, y: seq<int>)
    ensures Encoded(x + y) == Encoded(x) + Encoded(y)
  {
    var left := seq(|x|, (i: nat) requires i < |x| => WordBytes(x[i]));
    var right := seq(|y|, (i: nat) requires i < |y| => WordBytes(y[i]));
    ConcatAppend(left, right);
    assert left + right == seq(|x + y|, (i: nat) requires i < |x + y| => WordBytes((x + y)[i]));
  }

  lemma {:induction false} DataLength(blocks: seq<Block>)
    ensures |Data(blocks)| % 4 == 0
  {
    if blocks != [] {
      var n := |blocks| - 1;
      DataLength(blocks[..n]);
      EncodedLength(blocks[n].Content());
      BlocksNext(blocks, n);
      assert blocks[..n + 1] == blocks;
    }
  }

  // ---- Finding a region ----

  /** Where block i's region starts. */
  function Start(blocks: seq<Block>, i: nat): nat
    requires i <= |blocks|
  {
    |Data(blocks[..i])|
  }

  lemma StartOfPieces(blocks: seq<Block>, i: nat)
    requires i <= |blocks|
    ensures Start(blocks, i) == |Concat(Pieces(blocks)[..i])| && Start(blocks, i) % 4 == 0
  {
    DataLength(blocks[..i]);
    assert Pieces(blocks[..i]) == Pieces(blocks)[..i];
  }

  /** Block i owns the bytes from its start to the start of the next block. */
  lemma RegionOf(blocks: seq<Block>, i: nat)
    requires i < |blocks|
    ensures Start(blocks, i) % 4 == 0
    ensures Start(blocks, i + 1) == Start(blocks, i) + |Pieces(blocks)[i]| <= |Data(blocks)|
    ensures Slice(Data(blocks), Start(blocks, i), |Pieces(blocks)[i]|) == Pieces(blocks)[i]
  {
    StartOfPieces(blocks, i);
    StartOfPieces(blocks, i + 1);
    ConcatNext(Pieces(blocks), i);
    PieceAt(Pieces(blocks), i);
  }

  lemma {:induction false} PieceAt(pieces: seq<seq<byte>>, i: nat)
    requires i < |pieces|
    ensures |Concat(pieces[..i])| + |pieces[i]| <= |Concat(pieces)|
    ensures Slice(Concat(pieces), |Concat(pieces[..i])|, |pieces[i]|) == pieces[i]
  {
    ConcatAt(pieces, i);
  }

  lemma NextStart(blocks: seq<Block>, i: nat)
    requires i < |blocks|
    ensures Start(blocks, i + 1) == Start(blocks, i) + |Pieces(blocks)[i]|
  {
    BlocksNext(blocks, i);
  }

  /** Regions of different blocks do not overlap: they follow one another. */
  lemma {:induction false} RegionsDisjoint(blocks: seq<Block>, i: nat, j: nat)
    requires i < j < |blocks|
    ensures Start(blocks, i) + |Pieces(blocks)[i]| <= Start(blocks, j)
  {
    if i + 1 < j {
      RegionsDisjoint(blocks, i, j - 1);
    }
    NextStart(blocks, j - 1);
  }

  /** The last block of that name. */
  ghost predicate IsLast(blocks: seq<Block>, name: string, i: nat) {
    i < |blocks| && blocks[i].name == name && forall j :: i < j < |blocks| ==> blocks[j].name != name
  }

  lemma {:induction false} LastSymbol(blocks: seq<Block>, n: nat)
    requires |blocks| == n + 1
    ensures blocks[n].name in Symbols(blocks)
    ensures Symbols(blocks)[blocks[n].name] == (Start(blocks, n), blocks[n].Count())
  {
  }

  lemma {:induction false} EarlierSymbol(blocks: seq<Block>, n: nat, name: string)
    requires |blocks| == n + 1 && blocks[n].name != name && name in Symbols(blocks[..n])
    ensures name in Symbols(blocks) && Symbols(blocks)[name] == Symbols(blocks[..n])[name]
  {
  }

  lemma StartOfPrefix(blocks: seq<Block>, n: nat, i: nat)
    requires i <= n <= |blocks|
    ensures Start(blocks[..n], i) == Start(blocks, i)
  {
    assert blocks[..n][..i] == blocks[..i];
  }

  /** A symbol stands for the last block of its name. */
  lemma {:induction false} SymbolIsLast(blocks: seq<Block>, name: string, i: nat)
    requires IsLast(blocks, name, i)
    ensures name in Symbols(blocks) && Symbols(blocks)[name] == (Start(blocks, i), blocks[i].Count())
  {
    var n := |blocks| - 1;
    if i < n {
      assert IsLast(blocks[..n], name, i);
      SymbolIsLast(blocks[..n], name, i);
      StartOfPrefix(blocks, n, i);
      EarlierSymbol(blocks, n, name);
    } else {
      LastSymbol(blocks, n);
    }
  }

  // ---- Reading back ----

  /** The n 32-bit words from a byte offset on, if they are in bounds. */
  function ReadWords(data: seq<byte>, at: nat, n: nat): Option<seq<nat>> {
    if at + 4 * n > |data| then None
    else Some(seq(n, (i: nat) requires i < n => FromLe(Slice(data, at + 4 * i, 4))))
  }

  /** The rows of a graph of n nodes stored at a byte offset. */
  function ReadGraph(data: seq<byte>, at: nat, n: nat): Option<Csr> {
    match ReadWords(data, at, n + 1)
    case None => None
    case Some(offsets) =>
      match ReadWords(data, at + 4 * (n + 1), offsets[n])
      case None => None
      case Some(targets) => Some(Csr(offsets, targets))
  }

  lemma EncodedAt(words: seq<int>, i: nat)
    requires i < |words|
    ensures |Encoded(words)| == 4 * |words|
    ensures Slice(Encoded(words), 4 * i, 4) == WordBytes(words[i])
  {
    EncodedLength(words);
    EncodedLength(words[..i]);
    var parts := seq(|words|, (j: nat) requires j < |words| => WordBytes(words[j]));
    ConcatAt(parts, i);
    assert parts[..i] == seq(i, (j: nat) requires j < i => WordBytes(words[..i][j]));
  }

  /** Words read back where their bytes lie. */
  lemma ReadEncoded(data: seq<byte>, at: nat, words: seq<int>)
    requires at + 4 * |words| <= |data| && Slice(data, at, 4 * |words|) == Encoded(words)
    requires forall w :: w in words ==> IsWord(w)
    ensures ReadWords(data, at, |words|) == Some(words)
  {
    var read := ReadWords(data, at, |words|).value;
    forall i | 0 <= i < |words| ensures read[i] == words[i] {
      EncodedAt(words, i);
      SliceSlice(data, at, 4 * |words|, 4 * i, 4);
      assert IsWord(words[i]);
      Pow256Values();
      FromLeLe(words[i], 4);
    }
    assert read == words;
  }

  /** A region holding two runs of words holds each where it should. */
  lemma ReadTwoRuns(data: seq<byte>, at: nat, x: seq<int>, y: seq<int>)
    requires at + 4 * (|x| + |y|) <= |data| && Slice(data, at, 4 * (|x| + |y|)) == Encoded(x + y)
    requires forall w :: w in x + y ==> IsWord(w)
    ensures ReadWords(data, at, |x|) == Some(x)
    ensures ReadWords(data, at + 4 * |x|, |y|) == Some(y)
  {
    EncodedConcat(x, y);
    EncodedLength(x);
    EncodedLength(y);
    SliceSlice(data, at, 4 * (|x| + |y|), 0, 4 * |x|);
    SliceLeft(Encoded(x), Encoded(y), 0, 4 * |x|);
    SliceSlice(data, at, 4 * (|x| + |y|), 4 * |x|, 4 * |y|);
    SliceRight(Encoded(x), Encoded(y), 4 * |x|, 4 * |y|);
    assert forall w :: w in x ==> w in x + y;
    assert forall w :: w in y ==> w in x + y;
    ReadEncoded(data, at, x);
    ReadEncoded(data, at + 4 * |x|, y);
  }

  /** The graph read is the one written. */
  ghost predicate HasRows(g: Csr, rows: seq<seq<int>>) {
    && g.NodeCount() == |rows|
    && |g.offsets| == |rows| + 1
    && forall r :: 0 <= r < |rows| ==> HasRow(g, r, rows[r])
  }

  ghost predicate HasRow(g: Csr, r: nat, row: seq<int>)
    requires r + 1 < |g.offsets|
  {
    && g.offsets[r] + |row| == g.offsets[r + 1] <= |g.targets|
    && forall k :: 0 <= k < |row| ==> g.targets[g.offsets[r] + k] == row[k]
  }

  /** g is the CSR form of the rows. */
  ghost predicate IsCsrOf(g: Csr, rows: seq<seq<int>>) {
    g.offsets == Offsets(rows) && g.targets == Concat(rows)
  }

  lemma {:induction false} RowsOfCsr(rows: seq<seq<int>>, g: Csr)
    requires IsCsrOf(g, rows)
    ensures HasRows(g, rows)
  {
    forall r | 0 <= r < |rows| ensures HasRow(g, r, rows[r]) {
      ConcatAt(rows, r);
      ConcatNext(rows, r);
    }
  }

  lemma {:induction false} OffsetsAscend(rows: seq<seq<int>>, u: nat, w: nat)
    requires u <= w <= |rows|
    ensures Offsets(rows)[u] <= Offsets(rows)[w]
  {
    if u < w {
      OffsetsAscend(rows, u, w - 1);
      ConcatNext(rows, w - 1);
    }
  }

  /** An inline graph is valid CSR exactly when its targets are nodes. */
  lemma {:induction false} CsrValidity(rows: seq<seq<int>>, g: Csr)
    requires IsCsrOf(g, rows)
    ensures g.Valid() <==> TargetsBelow(g, |rows|)
  {
    assert rows[..0] == [] && rows[..|rows|] == rows;
    forall u, w | 0 <= u <= w <= |rows| ensures g.offsets[u] <= g.offsets[w] {
      OffsetsAscend(rows, u, w);
    }
  }

  predicate TargetsBelow(g: Csr, n: nat) {
    forall e :: 0 <= e < |g.targets| ==> g.targets[e] < n
  }

  // ---- Symbol payloads ----

  /** `off_b | (cnt << 16)`, unmasked. */
  function SymbolOperand(entry: (nat, nat)): nat {
    BitOr(entry.0, ShiftLeft(entry.1, 16))
  }

  /** What emission keeps of it. */
  function SymbolPayload(entry: (nat, nat)): nat {
    SymbolOperand(entry) % 0x1_0000_0000
  }

  lemma {:induction false} PackedPair(values: seq<nat>, layout: Layout, w: nat)
    requires |values| == 2 && layout == [Field(w, 0), Field(w, w)]
    requires values[0] < Pow2(w) && values[1] < Pow2(w)
    ensures Pack(values, layout) == BitOr(values[0], ShiftLeft(values[1], w))
  {
    LowBitsBound(values[0], w);
    LowBitsBound(values[1], w);
    OrZero(values[0]);
    OrSymmetric(0, values[0]);
    assert values[..1][..0] == [] && layout[..1][..0] == [];
    assert Pack(values[..1], layout[..1]) == values[0];
  }

  lemma PackedPairFits(values: seq<nat>, layout: Layout, w: nat, p: nat)
    requires |values| == 2 && layout == [Field(w, 0), Field(w, w)]
    requires values[0] < Pow2(w) && values[1] < Pow2(w) && Pow2(w + w) == 0x1_0000_0000
    requires p == BitOr(values[0], ShiftLeft(values[1], w)) % 0x1_0000_0000
    ensures p == Pack(values, layout)
  {
    PackedPair(values, layout, w);
    PackBound(values, layout, w + w);
  }

  lemma PayloadIsPacked(off: nat, cnt: nat)
    requires off < 0x1_0000 && cnt < 0x1_0000
    ensures SymbolPayload((off, cnt)) == Pack([off, cnt], HALVES)
  {
    Pow2Values();
    PackedPairFits([off, cnt], HALVES, 16, SymbolPayload((off, cnt)));
  }

  /** A symbol's payload gives back its offset and count exactly when both fit sixteen bits. */
  lemma SymbolRoundTrip(off: nat, cnt: nat)
    ensures Unpack(SymbolPayload((off, cnt)), HALVES) == [off, cnt] <==> off < 0x1_0000 && cnt < 0x1_0000
  {
    var p := SymbolPayload((off, cnt));
    Pow2Values();
    if off < 0x1_0000 && cnt < 0x1_0000 {
      PayloadIsPacked(off, cnt);
      DocumentedLayouts();
      PackRoundTrip([off, cnt], HALVES);
    } else {
      UnpackBound(p, HALVES, 0);
      UnpackBound(p, HALVES, 1);
      assert Unpack(p, HALVES)[0] != off || Unpack(p, HALVES)[1] != cnt;
    }
  }

  lemma UnpackBound(p: nat, layout: Layout, j: nat)
    requires j < |layout|
    ensures Unpack(p, layout)[j] < Pow2(layout[j].width)
  {
    LowBitsBound(ShiftRight(p, layout[j].shift), layout[j].width);
  }

  /** The two operand halves line j is decoded with; none if nothing can be fetched there. */
  function DecodedHalves(lines: seq<Line>, j: nat): seq<nat>
    requires j < |lines|
  {
    match DecodeAt(EmitAll(lines), Head(lines, j))
    case None => []
    case Some(f) => Unpack(f.instruction.payload, HALVES)
  }

  /** Line j carries a symbol's operand. */
  predicate Carries(lines: seq<Line>, j: nat, entry: (nat, nat)) {
    && j < |lines| && lines[j].Known() && lines[j].Encodable()
    && lines[j].payload == SymbolOperand(entry)
  }

  /** The machine decodes a symbol's offset and count exactly when both are below 2^16. */
  lemma {:induction false} SymbolReachesDecoder(lines: seq<Line>, j: nat, off: nat, cnt: nat)
    requires Carries(lines, j, (off, cnt))
    ensures DecodedHalves(lines, j) == [off, cnt] <==> off < 0x1_0000 && cnt < 0x1_0000
  {
    DecodeAtHead(lines, j);
    SymbolRoundTrip(off, cnt);
  }

  /** Block i is the last of its name, its offset and count fit, and line j carries its symbol. */
  ghost predicate Refers(lines: seq<Line>, j: nat, blocks: seq<Block>, i: nat) {
    && i < |blocks| && IsLast(blocks, blocks[i].name, i)
    && Start(blocks, i) < 0x1_0000 && blocks[i].Count() < 0x1_0000
    && blocks[i].name in Symbols(blocks)
    && Carries(lines, j, Symbols(blocks)[blocks[i].name])
  }

  lemma {:induction false} DecodedStart(lines: seq<Line>, j: nat, blocks: seq<Block>, i: nat)
    requires Refers(lines, j, blocks, i)
    ensures DecodedHalves(lines, j) == [Start(blocks, i), blocks[i].Count()]
  {
    SymbolIsLast(blocks, blocks[i].name, i);
    SymbolReachesDecoder(lines, j, Start(blocks, i), blocks[i].Count());
  }

  /**
   * From an instruction to the source text: after all blocks are appended, the operands a line that
   * carries a fitting symbol is decoded with locate an aligned region that reads back as its block.
   */
  lemma {:induction false} SymbolFindsBlock(lines: seq<Line>, j: nat, blocks: seq<Block>, i: nat, at: nat, n: nat)
    requires AllPackable(blocks) && Refers(lines, j, blocks, i) && DecodedHalves(lines, j) == [at, n]
    ensures at % 4 == 0
    ensures blocks[i].Values? ==> ReadWords(Data(blocks), at, n) == Some(blocks[i].words)
    ensures blocks[i].Graph? ==> ReadGraph(Data(blocks), at, n).Some?
                                 && IsCsrOf(ReadGraph(Data(blocks), at, n).value, blocks[i].rows)
                                 && HasRows(ReadGraph(Data(blocks), at, n).value, blocks[i].rows)
  {
    DecodedStart(lines, j, blocks, i);
    assert at == [at, n][0] && n == [at, n][1];
    BlockReadsBack(blocks, i);
  }

  /** Where a block starts its words or rows read back. */
  lemma {:induction false} BlockReadsBack(blocks: seq<Block>, i: nat)
    requires AllPackable(blocks) && i < |blocks|
    ensures Start(blocks, i) % 4 == 0
    ensures blocks[i].Values? ==> ReadWords(Data(blocks), Start(blocks, i), |blocks[i].words|) == Some(blocks[i].words)
    ensures blocks[i].Graph? ==>
              var rows, g := blocks[i].rows, ReadGraph(Data(blocks), Start(blocks, i), |blocks[i].rows|);
              g.Some? && IsCsrOf(g.value, rows) && HasRows(g.value, rows)
  {
    var b, at := blocks[i], Start(blocks, i);
    RegionOf(blocks, i);
    EncodedLength(b.Content());
    assert b in blocks;
    match b {
      case Values(_, words) => ReadEncoded(Data(blocks), at, words);
      case Graph(_, rows) => GraphReadsBack(Data(blocks), at, rows);
    }
  }

  lemma GraphRead(data: seq<byte>, at: nat, offsets: seq<int>, targets: seq<int>, n: nat)
    requires var words := offsets + targets;
             && at + 4 * |words| <= |data| && Slice(data, at, 4 * |words|) == Encoded(words)
             && forall w :: w in words ==> IsWord(w)
    requires |offsets| == n + 1 && offsets[n] == |targets|
    ensures ReadGraph(data, at, n).Some?
    ensures var g := ReadGraph(data, at, n).value; g.offsets == offsets && g.targets == targets
  {
    ReadTwoRuns(data, at, offsets, targets);
  }

  lemma {:induction false} GraphReadsBack(data: seq<byte>, at: nat, rows: seq<seq<int>>)
    requires var words := Offsets(rows) + Concat(rows);
             && at + 4 * |words| <= |data| && Slice(data, at, 4 * |words|) == Encoded(words)
             && forall w :: w in words ==> IsWord(w)
    ensures ReadGraph(data, at, |rows|).Some?
    ensures var g := ReadGraph(data, at, |rows|).value;
            IsCsrOf(g, rows) && HasRows(g, rows) && (g.Valid() <==> TargetsBelow(g, |rows|))
  {
    assert rows[..|rows|] == rows;
    GraphRead(data, at, Offsets(rows), Concat(rows), |rows|);
    var g := ReadGraph(data, at, |rows|).value;
    RowsOfCsr(rows, g);
    CsrValidity(rows, g);
  }
}
