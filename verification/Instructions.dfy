/** Instruction emission by the assembler, and the decoder of section 3.2. */
module Instructions {
  import opened Binary
  import opened Operands
  import opened Options
  import opened Sequences

  /** One 8-byte instruction slot; fields hold what their ctypes widths keep. */
  datatype Slot = Slot(opcode: nat, flags: nat, dst: nat, payload: nat) {

    predicate Valid() {
      opcode < 0x100 && flags < 0x100 && dst < 0x1_0000 && payload < 0x1_0000_0000
    }
  }

  const EXTENSION := 0xFF

  /** CSR_WALK_2HOP, _STATE, CSR_WALK, _FILTERED, CSR_DEGREE, _PREDICATE, _REDUCE_SUM, CSC_WALK, GATHER_NODE_ATTR */
  predicate IsWide(opcode: nat) {
    0x0E <= opcode <= 0x13 || opcode == 0x16 || opcode == 0x18 || opcode == 0x81
  }

  /** `flags | 0x80` on a byte, see SetBit7IsOr. */
  function SetBit7(flags: nat): nat {
    if flags / 0x80 % 2 == 1 then flags else flags + 0x80
  }

  lemma {:induction false} OrTopBit(x: nat, n: nat)
    requires x < Pow2(n)
    ensures BitOr(x, Pow2(n)) == x + Pow2(n) == BitOr(x + Pow2(n), Pow2(n))
  {
    if n > 0 {
      OrTopBit(x / 2, n - 1);
    }
  }

  lemma {:induction false} OrWithPower(x: nat, n: nat, top: nat)
    requires top == Pow2(n) && x < 2 * top
    ensures BitOr(x, top) == if x < top then x + top else x
  {
    if x < top {
      OrTopBit(x, n);
    } else {
      OrTopBit(x - top, n);
    }
  }

  lemma {:induction false} SetBit7IsOr(flags: nat)
    requires flags < 0x100
    ensures SetBit7(flags) == BitOr(flags, 0x80)
  {
    Pow2Values();
    OrWithPower(flags, 7, 0x80);
  }

  /** An assembled source line, before the choice of one or two words. */
  datatype Line = Line(opcode: nat, flags: int, dst: int, payload: int) {

    predicate Known() {
      opcode < EXTENSION
    }

    /** Relation or attribute IDs above 255 take the 128-bit form. */
    predicate Extended() {
      payload / 0x1_0000 > 255 && IsWide(opcode)
    }

    function Width(): nat {
      if Extended() then 2 else 1
    }

    /** Flags are cut to a byte before bit 7 is or-ed in, which is the same as after. */
    function Slots(): (slots: seq<Slot>)
      ensures |slots| == Width()
    {
      if Extended() then
        [Slot(opcode, SetBit7(flags % 0x100), dst % 0x1_0000, payload % 0x1_0000),
         Slot(EXTENSION, 0, payload / 0x1_0000 % 0x1_0000, 0)]
      else
        [Slot(opcode, flags % 0x100, dst % 0x1_0000, payload % 0x1_0000_0000)]
    }

    /** What the machine is meant to execute. */
    function Meaning(): Decoded {
      Decoded(opcode, flags, dst, payload % 0x1_0000_0000)
    }

    /** The flags leave bit 7 alone and the register number fits its field. */
    predicate Encodable() {
      0 <= flags < 0x80 && 0 <= dst < 0x1_0000
    }
  }

  datatype Decoded = Decoded(opcode: nat, flags: int, dst: int, payload: nat)

  /** The words of each line. */
  function Parts(lines: seq<Line>): (parts: seq<seq<Slot>>)
    ensures |parts| == |lines|
  {
    seq(|lines|, (i: nat) requires i < |lines| => lines[i].Slots())
  }

  function EmitAll(lines: seq<Line>): seq<Slot> {
    Concat(Parts(lines))
  }

  /** Appends each line's words to the instruction list. */
  method Emit(lines: seq<Line>) returns (instructions: seq<Slot>)
    ensures instructions == EmitAll(lines)
  {
    instructions := [];
    ghost var parts := Parts(lines);
    for i := 0 to |lines|
      invariant instructions == Concat(parts[..i])
    {
      ConcatNext(parts, i);
      instructions := instructions + lines[i].Slots();
    }
    assert parts[..|lines|] == parts;
  }

  // ---- Decoding (section 3.2.1) ----

  datatype Fetched = Fetched(instruction: Decoded, width: nat)

  predicate HasExtension(slots: seq<Slot>, pc: nat) {
    pc + 1 < |slots| && slots[pc + 1].opcode == EXTENSION && slots[pc + 1].flags == 0
  }

  /** FLAG_EXTENDED, bit 7 of the flags. */
  predicate IsExtended(head: Slot) {
    head.flags / 0x80 % 2 == 1
  }

  /** The instruction whose first word is slots[pc]; None when that word heads no valid instruction. */
  function DecodeAt(slots: seq<Slot>, pc: nat): Option<Fetched> {
    if pc >= |slots| || slots[pc].opcode == EXTENSION then None
    else
      var head := slots[pc];
      if !IsExtended(head) then Some(Fetched(Decoded(head.opcode, head.flags, head.dst, head.payload), 1))
      else if !HasExtension(slots, pc) then None
      else
        Some(Fetched(Decoded(head.opcode, head.flags % 0x80, head.dst,
                             head.payload % 0x1_0000 + slots[pc + 1].dst % 0x1_0000 * 0x1_0000), 2))
  }

  /** The whole stream from pc on. */
  function DecodeFrom(slots: seq<Slot>, pc: nat): Option<seq<Decoded>>
    decreases |slots| - pc
  {
    if pc >= |slots| then Some([])
    else
      match DecodeAt(slots, pc)
      case None => None
      case Some(f) =>
        match DecodeFrom(slots, pc + f.width)
        case None => None
        case Some(rest) => Some([f.instruction] + rest)
  }

  function Meanings(lines: seq<Line>): (ds: seq<Decoded>)
    ensures |ds| == |lines|
  {
    seq(|lines|, (i: nat) requires i < |lines| => lines[i].Meaning())
  }

  // ---- Where lines start ----

  /** The word at which source line i starts. */
  function Head(lines: seq<Line>, i: nat): nat
    requires i <= |lines|
  {
    if i == 0 then 0 else Head(lines, i - 1) + lines[i - 1].Width()
  }

  /** The two-word lines before line i. */
  function ExtendedBefore(lines: seq<Line>, i: nat): set<nat>
    requires i <= |lines|
  {
    set j: nat | j < i && lines[j].Extended()
  }

  /** Line i starts at word i plus the number of two-word lines before it. */
  lemma {:induction false} HeadCountsExtended(lines: seq<Line>, i: nat)
    requires i <= |lines|
    ensures Head(lines, i) == i + |ExtendedBefore(lines, i)|
  {
    if i > 0 {
      HeadCountsExtended(lines, i - 1);
      if lines[i - 1].Extended() {
        assert ExtendedBefore(lines, i) == ExtendedBefore(lines, i - 1) + {i - 1};
      } else {
        assert ExtendedBefore(lines, i) == ExtendedBefore(lines, i - 1);
      }
    }
  }

  lemma {:induction false} HeadIsLength(lines: seq<Line>, i: nat)
    requires i <= |lines|
    ensures |Concat(Parts(lines)[..i])| == Head(lines, i)
  {
    if i > 0 {
      HeadIsLength(lines, i - 1);
      ConcatNext(Parts(lines), i - 1);
    }
  }

  /** Slots `pc` and following hold exactly the words of one line. */
  ghost predicate Holds(slots: seq<Slot>, pc: nat, words: seq<Slot>) {
    pc + |words| <= |slots| && forall k :: 0 <= k < |words| ==> slots[pc + k] == words[k]
  }

  lemma {:induction false} HeadHolds(lines: seq<Line>, i: nat)
    requires i < |lines|
    ensures Holds(EmitAll(lines), Head(lines, i), lines[i].Slots())
  {
    var parts := Parts(lines);
    ConcatAt(parts, i);
    HeadIsLength(lines, i);
    assert parts[i] == lines[i].Slots();
  }

  // ---- Decoding what was emitted ----

  lemma PayloadHalves(payload: int)
    ensures payload % 0x1_0000 % 0x1_0000 + payload / 0x1_0000 % 0x1_0000 % 0x1_0000 * 0x1_0000
         == payload % 0x1_0000_0000
  {
  }

  lemma FlagFacts(flags: nat)
    requires flags < 0x80
    ensures flags / 0x80 % 2 == 0 && (flags + 0x80) / 0x80 % 2 == 1 && (flags + 0x80) % 0x80 == flags
  {
  }

  /** A head that leaves flag bit 7 clear is a whole instruction. */
  lemma DecodeOneWord(slots: seq<Slot>, pc: nat, head: Slot)
    requires pc < |slots| && slots[pc] == head && head.opcode != EXTENSION && head.flags < 0x80
    ensures DecodeAt(slots, pc) == Some(Fetched(Decoded(head.opcode, head.flags, head.dst, head.payload), 1))
  {
    FlagFacts(head.flags);
  }

  /** A marked head takes the upper half of its payload from the extension word. */
  lemma DecodeTwoWords(slots: seq<Slot>, pc: nat, head: Slot, ext: Slot, flags: nat)
    requires pc + 1 < |slots| && slots[pc] == head && slots[pc + 1] == ext
    requires head.opcode != EXTENSION && flags < 0x80 && head.flags == flags + 0x80
    requires ext.opcode == EXTENSION && ext.flags == 0
    ensures DecodeAt(slots, pc)
         == Some(Fetched(Decoded(head.opcode, flags, head.dst,
                                 head.payload % 0x1_0000 + ext.dst % 0x1_0000 * 0x1_0000), 2))
  {
    FlagFacts(flags);
    assert IsExtended(head) && HasExtension(slots, pc);
  }

  lemma OneWordLine(line: Line)
    requires !line.Extended() && line.Encodable()
    ensures line.Slots() == [Slot(line.opcode, line.flags, line.dst, line.payload % 0x1_0000_0000)]
  {
  }

  lemma TwoWordLine(line: Line)
    requires line.Extended() && line.Encodable()
    ensures line.Slots() == [Slot(line.opcode, line.flags + 0x80, line.dst, line.payload % 0x1_0000),
                             Slot(EXTENSION, 0, line.payload / 0x1_0000 % 0x1_0000, 0)]
  {
    FlagFacts(line.flags);
  }

  /** Where a line's words lie, the decoder reads its meaning and width. */
  lemma DecodeHeld(slots: seq<Slot>, pc: nat, line: Line)
    requires Holds(slots, pc, line.Slots())
    requires line.Known() && line.Encodable()
    ensures DecodeAt(slots, pc) == Some(Fetched(line.Meaning(), line.Width()))
  {
    var words := line.Slots();
    assert slots[pc + 0] == words[0];
    if line.Extended() {
      TwoWordLine(line);
      assert slots[pc + 1] == words[1];
      DecodeTwoWords(slots, pc, words[0], words[1], line.flags);
      PayloadHalves(line.payload);
    } else {
      OneWordLine(line);
      DecodeOneWord(slots, pc, words[0]);
    }
  }

  lemma {:induction false} DecodeAtHead(lines: seq<Line>, i: nat)
    requires i < |lines| && lines[i].Known() && lines[i].Encodable()
    ensures DecodeAt(EmitAll(lines), Head(lines, i)) == Some(Fetched(lines[i].Meaning(), lines[i].Width()))
  {
    HeadHolds(lines, i);
    DecodeHeld(EmitAll(lines), Head(lines, i), lines[i]);
  }

  lemma {:induction false} DecodeFromHead(lines: seq<Line>, i: nat)
    requires i <= |lines|
    requires forall j :: 0 <= j < |lines| ==> lines[j].Known() && lines[j].Encodable()
    ensures DecodeFrom(EmitAll(lines), Head(lines, i)) == Some(Meanings(lines)[i..])
    decreases |lines| - i
  {
    if i == |lines| {
      HeadIsLength(lines, i);
      assert Parts(lines)[..i] == Parts(lines);
    } else {
      DecodeAtHead(lines, i);
      DecodeFromHead(lines, i + 1);
      assert Meanings(lines)[i..] == [lines[i].Meaning()] + Meanings(lines)[i + 1..];
    }
  }

  lemma EmittedValid(lines: seq<Line>)
    requires forall j :: 0 <= j < |lines| ==> lines[j].Known()
    ensures forall k :: 0 <= k < |EmitAll(lines)| ==> EmitAll(lines)[k].Valid()
  {
    forall i, k | 0 <= i < |lines| && 0 <= k < |Parts(lines)[i]| ensures Parts(lines)[i][k].Valid() {
      SlotsValid(lines[i]);
    }
    ConcatAll(Parts(lines), (s: Slot) => s.Valid());
  }

  lemma SlotsValid(line: Line)
    requires line.Known()
    ensures forall k :: 0 <= k < |line.Slots()| ==> line.Slots()[k].Valid()
  {
  }

  /** Whatever is decoded has flags below 0x80 and a 16-bit register number. */
  lemma {:induction false} DecodedInRange(slots: seq<Slot>, pc: nat, k: nat)
    requires forall j :: 0 <= j < |slots| ==> slots[j].Valid()
    requires DecodeFrom(slots, pc).Some? && k < |DecodeFrom(slots, pc).value|
    ensures 0 <= DecodeFrom(slots, pc).value[k].flags < 0x80
    ensures 0 <= DecodeFrom(slots, pc).value[k].dst < 0x1_0000
    decreases |slots| - pc
  {
    var f := DecodeAt(slots, pc).value;
    if k > 0 {
      DecodedInRange(slots, pc + f.width, k - 1);
    }
  }

  /**
   * Decoding the emitted words returns the source lines, for any mix of one- and two-word lines,
   * exactly when no line uses flag bit 7 or a register number beyond sixteen bits.
   */
  lemma DecodeEmitted(lines: seq<Line>)
    requires forall j :: 0 <= j < |lines| ==> lines[j].Known()
    ensures DecodeFrom(EmitAll(lines), 0) == Some(Meanings(lines)) <==>
            forall j :: 0 <= j < |lines| ==> lines[j].Encodable()
  {
    if forall j :: 0 <= j < |lines| ==> lines[j].Encodable() {
      DecodeFromHead(lines, 0);
    } else if DecodeFrom(EmitAll(lines), 0) == Some(Meanings(lines)) {
      EmittedValid(lines);
      forall j | 0 <= j < |lines| ensures lines[j].Encodable() {
        DecodedInRange(EmitAll(lines), 0, j);
      }
    }
  }

  /** Operands packed into a 32-bit layout without overlaps reach the decoder intact, in either form. */
  lemma {:induction false} OperandsReachDecoder(lines: seq<Line>, i: nat, values: seq<int>, layout: Layout)
    requires i < |lines| && lines[i].Known() && lines[i].Encodable()
    requires Disjoint(layout) && Fits(values, layout)
    requires forall j :: 0 <= j < |layout| ==> layout[j].shift + layout[j].width <= 32
    requires lines[i].payload == Pack(values, layout)
    ensures DecodeAt(EmitAll(lines), Head(lines, i)).Some?
    ensures Unpack(DecodeAt(EmitAll(lines), Head(lines, i)).value.instruction.payload, layout) == values
  {
    DecodeAtHead(lines, i);
    PackedMeaning(lines[i].payload, values, layout);
    PackRoundTrip(values, layout);
  }

  lemma {:induction false} PackedMeaning(payload: int, values: seq<int>, layout: Layout)
    requires |values| == |layout| && payload == Pack(values, layout)
    requires forall j :: 0 <= j < |layout| ==> layout[j].shift + layout[j].width <= 32
    ensures payload % 0x1_0000_0000 == payload
  {
    Pow2Values();
    PackBound(values, layout, 32);
  }

  // ---- Which lines take a second word ----

  const CSR_WALK_2HOP := 0x0E
  const CSR_WALK_STATE := 0x0F
  const CSR_WALK := 0x10
  const CSR_WALK_FILTERED := 0x11
  const CSR_DEGREE := 0x12
  const CSR_WALK_PREDICATE := 0x13
  const CSR_WALK_REDUCE_SUM := 0x16
  const CSC_WALK := 0x18
  const GATHER_NODE_ATTR := 0x81

  /** The upper half of the payload is a relation or attribute ID above 255. */
  ghost predicate CarriesLargeId(opcode: nat, payload: int) {
    && payload / 0x1_0000 > 255
    && opcode in {CSR_WALK_2HOP, CSR_WALK_STATE, CSR_WALK, CSR_WALK_FILTERED, CSR_DEGREE, CSR_WALK_PREDICATE,
                  CSR_WALK_REDUCE_SUM, CSC_WALK, GATHER_NODE_ATTR}
  }

  lemma SomeWord(lines: seq<Line>, i: nat)
    requires i < |lines|
    ensures Head(lines, i) < |EmitAll(lines)|
    ensures EmitAll(lines)[Head(lines, i)] == lines[i].Slots()[0]
    ensures lines[i].Extended() ==>
              Head(lines, i) + 1 < |EmitAll(lines)| && EmitAll(lines)[Head(lines, i) + 1] == lines[i].Slots()[1]
  {
    HeadHolds(lines, i);
    assert EmitAll(lines)[Head(lines, i) + 0] == lines[i].Slots()[0];
  }

  /** What follows a one-word line is the head of the next line, never an extension word. */
  lemma NextIsHead(lines: seq<Line>, i: nat)
    requires i < |lines| && !lines[i].Extended() && forall j :: 0 <= j < |lines| ==> lines[j].Known()
    requires Head(lines, i) + 1 < |EmitAll(lines)|
    ensures EmitAll(lines)[Head(lines, i) + 1].opcode != 0xFF
  {
    HeadIsLength(lines, |lines|);
    assert Parts(lines)[..|lines|] == Parts(lines);
    if i + 1 < |lines| {
      SomeWord(lines, i + 1);
    }
  }

  /**
   * The words of line i: a second word follows exactly when the line carries an ID above 255, which that
   * word then holds and nothing else; otherwise the head holds the whole payload.
   */
  lemma WordsOfLine(lines: seq<Line>, i: nat)
    requires i < |lines| && forall j :: 0 <= j < |lines| ==> lines[j].Known()
    ensures var w, h, line := EmitAll(lines), Head(lines, i), lines[i];
            && h < |w| && w[h].opcode == line.opcode && w[h].dst == line.dst % 0x1_0000
            && (h + 1 < |w| && w[h + 1].opcode == 0xFF <==> CarriesLargeId(line.opcode, line.payload))
            && if CarriesLargeId(line.opcode, line.payload) then
                 && w[h].flags == BitOr(line.flags % 0x100, 0x80) && w[h].payload == line.payload % 0x1_0000
                 && w[h + 1] == Slot(0xFF, 0, line.payload / 0x1_0000 % 0x1_0000, 0)
               else
                 w[h].flags == line.flags % 0x100 && w[h].payload == line.payload % 0x1_0000_0000
  {
    SomeWord(lines, i);
    assert lines[i].Extended() == CarriesLargeId(lines[i].opcode, lines[i].payload);
    if lines[i].Extended() {
      SetBit7IsOr(lines[i].flags % 0x100);
    } else if Head(lines, i) + 1 < |EmitAll(lines)| {
      NextIsHead(lines, i);
    }
  }

  lemma SmallByte(flags: nat)
    requires flags < 0x80
    ensures flags % 0x100 == flags && SetBit7(flags) == flags + 0x80
  {
  }

  lemma {:induction false} MarkedFlags(flags: nat, cut: nat)
    requires flags < 0x80 && cut == flags % 0x100
    ensures BitOr(cut, 0x80) == flags + 0x80
  {
    SmallByte(flags);
    SetBit7IsOr(cut);
  }

  lemma UpperHalf(payload: nat)
    requires payload < 0x1_0000_0000
    ensures payload / 0x1_0000 % 0x1_0000 == payload / 0x1_0000 && payload % 0x1_0000_0000 == payload
  {
  }

  /** IDs arrive whole: an unmarked word holds its ID, at most 255, and a marked one's is in the extension word. */
  lemma LargeIdsTakeTwoWords(lines: seq<Line>, i: nat)
    requires i < |lines| && forall j :: 0 <= j < |lines| ==> lines[j].Known()
    requires lines[i].Encodable() && 0 <= lines[i].payload < 0x1_0000_0000
    requires CarriesLargeId(lines[i].opcode, 256 * 0x1_0000)
    ensures Head(lines, i) < |EmitAll(lines)|
    ensures EmitAll(lines)[Head(lines, i)].flags < 0x80 ==>
              EmitAll(lines)[Head(lines, i)].payload / 0x1_0000 == lines[i].payload / 0x1_0000 <= 255
    ensures EmitAll(lines)[Head(lines, i)].flags >= 0x80 ==>
              && Head(lines, i) + 1 < |EmitAll(lines)|
              && EmitAll(lines)[Head(lines, i) + 1].dst == lines[i].payload / 0x1_0000 > 255
  {
    WordsOfLine(lines, i);
    MarkedFlags(lines[i].flags, lines[i].flags % 0x100);
    UpperHalf(lines[i].payload);
    assert CarriesLargeId(lines[i].opcode, lines[i].payload) <==> lines[i].payload / 0x1_0000 > 255;
  }

  /** A stream cut off inside a two-word line has no instruction at that line. */
  lemma {:induction false} CutInsideLine(lines: seq<Line>, i: nat)
    requires i < |lines| && CarriesLargeId(lines[i].opcode, lines[i].payload)
    ensures Head(lines, i) < |EmitAll(lines)|
    ensures DecodeAt(EmitAll(lines)[..Head(lines, i) + 1], Head(lines, i)) == None
  {
    SomeWord(lines, i);
    var flags := lines[i].flags % 0x100;
    assert (flags + 0x80) / 0x80 % 2 == 1 || flags / 0x80 % 2 == 1;
  }

  /** Whatever a marked word is followed by, unless it is an extension word nothing is decoded. */
  lemma ExtensionIsNeeded(slots: seq<Slot>, pc: nat)
    requires pc < |slots| && slots[pc].Valid() && slots[pc].flags >= 0x80
    ensures DecodeAt(slots, pc).Some? ==> pc + 1 < |slots| && slots[pc + 1].opcode == 0xFF && slots[pc + 1].flags == 0
  {
  }
}
