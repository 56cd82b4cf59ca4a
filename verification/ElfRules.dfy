/** The gate's conditions in the bits and bytes of the file, and genuine objects that meet them. */
module ElfRules {
  import opened Common
  import opened ElfLayout
  import opened ElfMips
  import opened ElfReader
  import opened ElfTables
  import opened Ranges

  // ----- relocation entries

  lemma AllTwo(data: seq<byte>, off: nat, fs: seq<Item>, little: bool, o: seq<nat>)
    requires |fs| == |o| == 2
    ensures (forall i | 0 <= i < |fs| :: FieldIs(data, little, off + o[i], fs[i])) <==>
      FieldIs(data, little, off + o[0], fs[0]) && FieldIs(data, little, off + o[1], fs[1])
  {}

  lemma HoldsPair(data: seq<byte>, off: nat, fs: seq<Item>, little: bool, o: seq<nat>)
    requires |fs| == |o| == 2 && o[0] == 0 && o[1] == fs[0].width && off + fs[0].width + fs[1].width <= |data|
    ensures Holds(data, off, fs, little) <==>
      FieldIs(data, little, off, fs[0]) && FieldIs(data, little, off + fs[0].width, fs[1])
  {
    HoldsAt(data, off, fs, little, o);
    AllTwo(data, off, fs, little, o);
  }

  /** Two fields of w bytes, one after the other. */
  lemma HoldsTwo(data: seq<byte>, off: nat, a: nat, b: nat, w: nat, little: bool)
    requires off + 2 * w <= |data|
    ensures Holds(data, off, [F(a, w), F(b, w)], little) <==>
      Field(data, little, off, w) == a && Field(data, little, off + w, w) == b
  {
    HoldsPair(data, off, [F(a, w), F(b, w)], little, [0, w]);
  }

  lemma Unpack32(info: nat, symbol: nat, kind: nat)
    ensures info / 0x100 == symbol && info % 0x100 == kind <==> info == symbol * 0x100 + kind && kind < 0x100
  {}

  lemma Unpack64(info: nat, symbol: nat, kind: nat)
    ensures info / 0x1_0000_0000 == symbol && info % 0x1_0000_0000 == kind <==>
      info == symbol * 0x1_0000_0000 + kind && kind < 0x1_0000_0000
  {}

  lemma Words32(data: seq<byte>, little: bool, at: nat, address: nat, symbol: nat, kind: nat)
    requires at + 8 <= |data|
    ensures var info := Field(data, little, at + 4, 4);
      Field(data, little, at, 4) == address && info / 0x100 == symbol && info % 0x100 == kind <==>
        kind < 0x100 && Holds(data, at, [F(address, 4), F(symbol * 0x100 + kind, 4)], little)
  {
    HoldsTwo(data, at, address, symbol * 0x100 + kind, 4, little);
    Unpack32(Field(data, little, at + 4, 4), symbol, kind);
  }

  lemma Words64(data: seq<byte>, little: bool, at: nat, address: nat, symbol: nat, kind: nat)
    requires at + 16 <= |data|
    ensures var info := Field(data, little, at + 8, 8);
      Field(data, little, at, 8) == address && info / 0x1_0000_0000 == symbol && info % 0x1_0000_0000 == kind <==>
        kind < 0x1_0000_0000 && Holds(data, at, [F(address, 8), F(symbol * 0x1_0000_0000 + kind, 8)], little)
  {
    HoldsTwo(data, at, address, symbol * 0x1_0000_0000 + kind, 8, little);
    Unpack64(Field(data, little, at + 8, 8), symbol, kind);
  }

  /** The two words of an entry encode its address and its packed symbol and kind: symbol * 2^8 + kind in a
      32-bit file, symbol * 2^32 + kind in a 64-bit one. */
  predicate EntryEncodes(obj: Relocatable, at: nat, address: nat, symbol: nat, kind: nat) {
    if obj.class_ == Elf32 then
      kind < 0x100 && Holds(obj.data, at, [F(address, 4), F(symbol * 0x100 + kind, 4)], obj.little)
    else
      kind < 0x1_0000_0000 && Holds(obj.data, at, [F(address, 8), F(symbol * 0x1_0000_0000 + kind, 8)], obj.little)
  }

  /** Entry j's place in the file. */
  function EntryPlace(obj: Relocatable, s: Section, j: nat): nat {
    s.offset + j * (if obj.class_ == Elf32 then if s.kind == 4 then 12 else 8 else if s.kind == 4 then 24 else 16)
  }

  lemma RelocationParts(obj: Relocatable, i: nat, j: nat, at: nat)
    requires WellFormed(obj) && i < |obj.sections| && IsRelocation(obj.sections[i])
    requires j < obj.sections[i].size / EntrySize(obj, obj.sections[i]) && at == EntryPlace(obj, obj.sections[i], j)
    ensures var w := if obj.class_ == Elf32 then 4 else 8;
      at + 2 * w <= |obj.data| &&
      var address, info := Field(obj.data, obj.little, at, w), Field(obj.data, obj.little, at + w, w);
      var target := obj.sections[i].info;
      RelocationAt(obj, i, j) ==
        if obj.class_ == Elf32 then Relocation(i, target, address, info / 0x100, info % 0x100)
        else Relocation(i, target, address, info / 0x1_0000_0000, info % 0x1_0000_0000)
  {
    EntryInside(obj.sections[i].size, EntrySize(obj, obj.sections[i]), j);
  }

  lemma WordsEncode32(obj: Relocatable, row: Relocation, i: nat, target: nat, at: nat, address: nat, symbol: nat, kind: nat)
    requires obj.class_ == Elf32 && at + 8 <= |obj.data|
    requires var word, info := Field(obj.data, obj.little, at, 4), Field(obj.data, obj.little, at + 4, 4);
      row == Relocation(i, target, word, info / 0x100, info % 0x100)
    ensures row == Relocation(i, target, address, symbol, kind) <==> EntryEncodes(obj, at, address, symbol, kind)
  {
    Words32(obj.data, obj.little, at, address, symbol, kind);
  }

  lemma WordsEncode64(obj: Relocatable, row: Relocation, i: nat, target: nat, at: nat, address: nat, symbol: nat, kind: nat)
    requires obj.class_ == Elf64 && at + 16 <= |obj.data|
    requires var word, info := Field(obj.data, obj.little, at, 8), Field(obj.data, obj.little, at + 8, 8);
      row == Relocation(i, target, word, info / 0x1_0000_0000, info % 0x1_0000_0000)
    ensures row == Relocation(i, target, address, symbol, kind) <==> EntryEncodes(obj, at, address, symbol, kind)
  {
    Words64(obj.data, obj.little, at, address, symbol, kind);
  }

  /** The row read for entry j has this address, symbol and kind exactly when the entry encodes them. */
  lemma RelocationEncoded(obj: Relocatable, i: nat, j: nat, address: nat, symbol: nat, kind: nat)
    requires WellFormed(obj) && i < |obj.sections| && IsRelocation(obj.sections[i])
    requires j < obj.sections[i].size / EntrySize(obj, obj.sections[i])
    ensures RelocationAt(obj, i, j) == Relocation(i, obj.sections[i].info, address, symbol, kind) <==>
      EntryEncodes(obj, EntryPlace(obj, obj.sections[i], j), address, symbol, kind)
  {
    var at := EntryPlace(obj, obj.sections[i], j);
    RelocationParts(obj, i, j, at);
    if obj.class_ == Elf32 {
      WordsEncode32(obj, RelocationAt(obj, i, j), i, obj.sections[i].info, at, address, symbol, kind);
    } else {
      WordsEncode64(obj, RelocationAt(obj, i, j), i, obj.sections[i].info, at, address, symbol, kind);
    }
  }

  /** The same with the numbers of each class and kind written out. */
  lemma EncodedIsRead(obj: Relocatable, i: nat, j: nat, address: nat, symbol: nat, kind: nat)
    requires WellFormed(obj) && i < |obj.sections| && IsRelocation(obj.sections[i])
    requires j < obj.sections[i].size / EntrySize(obj, obj.sections[i])
    ensures var s := obj.sections[i];
      obj.class_ == Elf32 && kind < 0x100 &&
      Holds(obj.data, s.offset + j * (if s.kind == 4 then 12 else 8),
            [F(address, 4), F(symbol * 0x100 + kind, 4)], obj.little)
      ==> RelocationAt(obj, i, j) == Relocation(i, s.info, address, symbol, kind)
    ensures var s := obj.sections[i];
      obj.class_ == Elf64 && kind < 0x1_0000_0000 &&
      Holds(obj.data, s.offset + j * (if s.kind == 4 then 24 else 16),
            [F(address, 8), F(symbol * 0x1_0000_0000 + kind, 8)], obj.little)
      ==> RelocationAt(obj, i, j) == Relocation(i, s.info, address, symbol, kind)
  {
    RelocationEncoded(obj, i, j, address, symbol, kind);
  }

  // ----- the conditions in remainders, the form the masks of the flags and of st_info take

  lemma Parity(q: nat, k: nat)
    ensures (2 * q + k) % 2 == k % 2
  {}

  lemma Quotients(f: nat, q: nat, r: nat)
    requires f == 8 * q + r && r < 8
    ensures f / 8 == q && f / 4 == 2 * q + r / 4 && f / 2 == 4 * q + r / 2
  {}

  lemma LowBits(f: nat)
    ensures var r := f % 8;
      (Flag(f, 1) <==> r % 2 == 1) && (Flag(f, 2) <==> r / 2 % 2 == 1) && (Flag(f, 4) <==> r / 4 % 2 == 1)
    ensures f % 2 == f % 8 % 2
  {
    var q, r := f / 8, f % 8;
    Quotients(f, q, r);
    Parity(4 * q, r);
    Parity(2 * q, r / 2);
    Parity(q, r / 4);
  }

  lemma Halves(f: nat)
    ensures f / 0x400 == f / 0x200 / 2 && f / 0x800 == f / 0x200 / 4
  {}

  lemma Blocks(f: nat)
    ensures f % 0x1000 < 0x200 <==> f / 0x200 % 8 == 0
  {
    var q, r := f / 0x1000, f % 0x1000;
    assert f / 0x200 == 8 * q + r / 0x200;
    assert (8 * q + r / 0x200) % 8 == r / 0x200;
  }

  lemma HighBits(f: nat)
    ensures Flag(f, 0x200) <==> Flag(f / 0x200, 1)
    ensures Flag(f, 0x400) <==> Flag(f / 0x200, 2)
    ensures Flag(f, 0x800) <==> Flag(f / 0x200, 4)
  {
    Halves(f);
  }

  lemma FlagRemainders(f: nat)
    ensures AllocExec(f) <==> f % 8 >= 6
    ensures Flag(f, 1) <==> f % 2 == 1
    ensures Flag(f, 4) <==> f % 8 >= 4
    ensures !Flag(f, 0x200) && !Flag(f, 0x400) && !Flag(f, 0x800) <==> f % 0x1000 < 0x200
  {
    LowBits(f);
    LowBits(f / 0x200);
    HighBits(f);
    Blocks(f);
  }

  lemma SectionRules(obj: Relocatable, mips: Mips, i: nat)
    requires WellFormed(obj) && i < |obj.sections|
    ensures var s := obj.sections[i];
      SectionOk(obj, mips, i) <==>
        (s.kind in [1, 2, 3, 4, 7, 8, 9] || (obj.machine == 40 && s.kind in [0x70000001, 0x70000003]) ||
         (mips == Admitted && s.kind in [0x6fff4c03, 0x70000006, 0x7000002a])) &&
        s.address == 0 && s.flags % 0x1000 < 0x200 && (s.alignment > 0 ==> s.offset % s.alignment == 0) &&
        (s.kind == 3 ==>
           var b := obj.data[s.offset..s.offset + s.size]; b != [] && b[0] == 0 && b[|b| - 1] == 0) &&
        (s.kind in [1, 3, 7, 8, 0x70000003] ==> s.link == 0 && s.info == 0) &&
        (s.kind == 0x70000001 ==>
           s.name == Ascii(".ARM.exidx") && s.flags == 0x82 && s.info == 0 && s.link != 0 &&
           obj.sections[s.link].kind == 1 && obj.sections[s.link].flags % 8 >= 6)
  {
    var s := obj.sections[i];
    FlagRemainders(s.flags);
    FlagRemainders(obj.sections[s.link].flags);
  }

  lemma SymbolRules(obj: Relocatable, i: nat)
    requires WellFormed(obj) && i < |obj.symbols|
    ensures var s, n := obj.symbols[i], |obj.sections|;
      SymbolOk(obj, i) <==>
        s.info < 0x30 && s.info % 16 <= 6 && (s.other <= 3 || AlphaMetadata(obj, s)) &&
        (s.info < 16 <==> i < obj.sections[obj.symbolTable].info) &&
        match s.section
        case 0 => s.value == 0 && s.size == 0 && s.info % 16 != 3 && s.info % 16 != 4
        case 0xfff1 => s.value == 0 && s.size == 0 && s.info == 4
        case m =>
          m < n && s.value + s.size <= obj.sections[m].size && s.info % 16 != 4 &&
          (s.info % 16 == 3 ==> s.info == 3 && s.value == 0 && s.size == 0)
  {}

  lemma AlphaRules(obj: Relocatable, s: Symbol)
    requires WellFormed(obj)
    ensures AlphaMetadata(obj, s) <==>
      obj.class_ == Elf64 && obj.little && obj.machine == 0x9026 && obj.data[48..52] == [0, 0, 0, 0] &&
      s.other in [0x80, 0x88] && s.info in [2, 0x12] && s.name != [] && s.size > 0 && 0 < s.section < |obj.sections| &&
      var t := obj.sections[s.section];
      t.kind == 1 && t.flags % 8 >= 6 && t.flags % 2 == 0 && s.value + s.size <= t.size
  {
    if obj.class_ == Elf64 {
      FieldIff(obj.data, true, 48, 4, 0);
      assert LittleDigits(0, 4) == [0] + LittleDigits(0, 3) && LittleDigits(0, 3) == [0] + LittleDigits(0, 2);
      assert LittleDigits(0, 2) == [0] + LittleDigits(0, 1) && LittleDigits(0, 1) == [0];
      assert Pow256(4) > 0;
    }
    if 0 < s.section < |obj.sections| {
      FlagRemainders(obj.sections[s.section].flags);
    }
  }

  lemma DefinitionRules(obj: Relocatable, s: Symbol)
    requires WellFormed(obj)
    ensures DefinitionOk(obj, s) <==>
      s.info == 0x12 && (s.other == 0 || AlphaMetadata(obj, s)) && s.size > 0 && 0 < s.section < |obj.sections| &&
      var t := obj.sections[s.section];
      t.kind == 1 && t.flags % 8 >= 6 && t.flags % 2 == 0
  {
    if 0 < s.section < |obj.sections| {
      FlagRemainders(obj.sections[s.section].flags);
    }
  }

  lemma {:induction false} NoReferences(rows: seq<Relocation>, symbol: nat)
    ensures References(rows, symbol) == [] <==> forall j | 0 <= j < |rows| :: rows[j].symbol != symbol
  {
    if rows != [] {
      NoReferences(rows[..|rows| - 1], symbol);
    }
  }

  /** Entry j is the only one for the symbol. */
  predicate OnlyReference(rows: seq<Relocation>, symbol: nat, j: nat) {
    j < |rows| && forall m | 0 <= m < |rows| :: rows[m].symbol == symbol <==> m == j
  }

  lemma OnlyAtEnd(rows: seq<Relocation>, symbol: nat, j: nat)
    requires rows != []
    ensures var n, before := |rows| - 1, rows[..|rows| - 1];
      OnlyReference(rows, symbol, j) <==>
        if rows[n].symbol == symbol then j == n && forall m | 0 <= m < n :: before[m].symbol != symbol
        else OnlyReference(before, symbol, j)
  {}

  /** There is one reference exactly when one entry is the only one for the symbol. */
  lemma {:induction false} OneReference(rows: seq<Relocation>, symbol: nat, j: nat)
    requires OnlyReference(rows, symbol, j)
    ensures References(rows, symbol) == [rows[j]]
  {
    var n, before := |rows| - 1, rows[..|rows| - 1];
    OnlyAtEnd(rows, symbol, j);
    NoReferences(before, symbol);
    if rows[n].symbol != symbol {
      OneReference(before, symbol, j);
    }
  }

  lemma {:induction false} ReferenceFound(rows: seq<Relocation>, symbol: nat) returns (j: nat)
    requires |References(rows, symbol)| == 1
    ensures OnlyReference(rows, symbol, j)
  {
    var n, before := |rows| - 1, rows[..|rows| - 1];
    NoReferences(before, symbol);
    if rows[n].symbol == symbol {
      j := n;
    } else {
      j := ReferenceFound(before, symbol);
    }
    OnlyAtEnd(rows, symbol, j);
  }

  /** An undefined symbol is admitted exactly as the ARM unwind routine that one relocation keeps. */
  lemma UndefinedRules(obj: Relocatable, rows: seq<Relocation>, i: nat, section: nat)
    requires i < |obj.symbols|
    requires forall j | 0 <= j < |rows| :: rows[j].section < |obj.sections| && rows[j].target < |obj.sections|
    ensures UndefinedOk(obj, rows, i, section) <==>
      obj.class_ == Elf32 && obj.machine == 40 && obj.symbols[i].name == Ascii("__aeabi_unwind_cpp_pr0") &&
      obj.symbols[i].info == 0x10 && obj.symbols[i].other == 0 &&
      exists j: nat :: OnlyReference(rows, i, j) && rows[j].address == 0 && rows[j].kind == 0 &&
                       obj.sections[rows[j].section].kind == 9 &&
                       var t := obj.sections[rows[j].target];
                       t.kind == 0x70000001 && t.link == section && t.size == 8
  {
    forall j: nat | OnlyReference(rows, i, j) ensures References(rows, i) == [rows[j]] {
      OneReference(rows, i, j);
    }
    if |References(rows, i)| == 1 {
      var j := ReferenceFound(rows, i);
    }
  }

  /** What calibrating demands beside the gate. */
  lemma CalibrationRules(obj: Relocatable, fixture: Fixture, k: nat)
    requires WellFormed(obj) && Calibrates(obj, fixture, k)
    ensures fixture == Fixture(if obj.class_ == Elf32 then 32 else 64, obj.machine, true, obj.little)
    ensures 0 < obj.machine <= 0xffff
    ensures forall i | 0 <= i < |obj.symbols| ::
      obj.symbols[i].name == Ascii("fragma_common24_compiler_calibration") <==> i == k
    ensures forall i, j | 1 <= i < j < |obj.symbols| :: obj.symbols[i].section != 0 || obj.symbols[j].section != 0
    ensures forall i | 1 <= i < |obj.symbols| && obj.symbols[i].section == 0 ::
      UndefinedOk(obj, Relocations(obj, |obj.sections|), i, obj.symbols[k].section)
  {
    assert forall i | 1 <= i < |obj.symbols| :: Undefined(obj, i) <==> obj.symbols[i].section == 0;
  }

  /** What the gate demands of the whole tables. */
  lemma TableRules(obj: Relocatable)
    requires WellFormed(obj) && Complete(obj)
    ensures forall i | 1 <= i < |obj.sections| :: SectionOk(obj, MipsMetadata(obj), i)
    ensures obj.symbols[0] == Symbol([], 0, 0, 0, 0, 0)
    ensures 0 < obj.sections[obj.symbolTable].info <= |obj.symbols|
    ensures forall i | 0 <= i < |obj.symbols| :: SymbolOk(obj, i)
    ensures forall i | 0 <= i < |obj.sections| && obj.sections[i].kind in [4, 9] ::
      var s := obj.sections[i];
      s.link == obj.symbolTable && 0 < s.info < |obj.sections| && obj.sections[s.info].flags % 8 < 4 &&
      s.entrySize == (if obj.class_ == Elf32 then if s.kind == 4 then 12 else 8 else if s.kind == 4 then 24 else 16) &&
      s.size % s.entrySize == 0
  {
    forall i | 0 <= i < |obj.sections| && obj.sections[i].kind in [4, 9]
      ensures RelocationHeaderOk(obj, obj.sections[i]) && obj.sections[obj.sections[i].info].flags % 8 < 4
    {
      assert RelocationSectionOk(obj, i);
      FlagRemainders(obj.sections[obj.sections[i].info].flags);
    }
  }

  // ----- genuine objects are admitted

  /** All sections are in the file, one behind the other, the header before and the section table behind them. */
  predicate InOrder(obj: Relocatable) {
    var n := |obj.sections|;
    n >= 2 && HeaderSize(obj.class_) <= obj.sections[1].offset &&
    (forall i | 1 <= i < n :: obj.sections[i].kind != 8) &&
    (forall i | 1 < i < n :: obj.sections[i - 1].offset + obj.sections[i - 1].size <= obj.sections[i].offset) &&
    obj.sections[n - 1].offset + obj.sections[n - 1].size <= obj.sectionOffset
  }

  lemma {:induction false} SectionsInOrder(obj: Relocatable, n: nat)
    requires InOrder(obj) && 2 <= n <= |obj.sections|
    ensures var r := SectionRanges(obj.sections, n);
      PairwiseDisjoint(r) &&
      forall i | 0 <= i < |r| ::
        HeaderSize(obj.class_) <= r[i].start && r[i].end <= obj.sections[n - 1].offset + obj.sections[n - 1].size
    ensures HeaderSize(obj.class_) <= obj.sections[n - 1].offset
  {
    if n > 2 {
      SectionsInOrder(obj, n - 1);
    } else {
      assert SectionRanges(obj.sections, 1) == [];
    }
  }

  lemma {:induction false} OffsetsInOrder(obj: Relocatable, n: nat)
    requires InOrder(obj) && 2 <= n <= |obj.sections|
    ensures obj.sections[n - 1].offset + obj.sections[n - 1].size <= obj.sectionOffset
    decreases |obj.sections| - n
  {
    if n < |obj.sections| {
      OffsetsInOrder(obj, n + 1);
    }
  }

  lemma InOrderIsDisjoint(obj: Relocatable)
    requires WellFormed(obj) && InOrder(obj)
    ensures PairwiseDisjoint(AllRanges(obj))
  {
    var rest := SectionRanges(obj.sections, |obj.sections|);
    SectionsInOrder(obj, |obj.sections|);
    OffsetsInOrder(obj, 2);
    ConsPairwise(TableRange(obj), rest);
    ConsPairwise(HeaderRange(obj), [TableRange(obj)] + rest);
    ConsClear(HeaderRange(obj), TableRange(obj), rest);
    assert AllRanges(obj) == [HeaderRange(obj)] + ([TableRange(obj)] + rest);
  }

  predicate Aligned(s: Section) {
    s.alignment > 0 ==> s.offset % s.alignment == 0
  }

  /** Allocated executable code without a link. */
  predicate TextSection(s: Section) {
    s.kind == 1 && s.flags == 6 && s.address == 0 && s.link == 0 && s.info == 0 && Aligned(s)
  }

  predicate StringSection(obj: Relocatable, s: Section) {
    s.kind == 3 && s.flags == 0 && s.address == 0 && s.link == 0 && s.info == 0 && Aligned(s) && s.size > 0 &&
    s.offset + s.size <= |obj.data| && obj.data[s.offset] == 0 && obj.data[s.offset + s.size - 1] == 0
  }

  predicate SymbolSection(s: Section, locals: nat) {
    s.kind == 2 && s.flags == 0 && s.address == 0 && s.info == locals && Aligned(s)
  }

  function Definition(value: nat, size: nat): Symbol {
    Symbol(Ascii("fragma_common24_compiler_calibration"), value, size, 0x12, 0, 1)
  }

  lemma {:induction false} NoneMarked(sections: seq<Section>)
    requires forall i | 0 <= i < |sections| :: !Marked(sections[i])
    ensures CountMarked(sections) == 0
  {
    if sections != [] {
      NoneMarked(sections[1..]);
    }
  }

  predicate Unmarked(obj: Relocatable)
    requires WellFormed(obj)
  {
    !OnRoute(obj) && forall i | 0 <= i < |obj.sections| :: !Marked(obj.sections[i])
  }

  lemma FlagsOf()
    ensures AllocExec(6) && !Flag(6, 1)
    ensures !Flag(6, 0x200) && !Flag(6, 0x400) && !Flag(6, 0x800)
    ensures !Flag(0, 0x200) && !Flag(0, 0x400) && !Flag(0, 0x800) && !Flag(0, 4)
    ensures !Flag(0x82, 0x200) && !Flag(0x82, 0x400) && !Flag(0x82, 0x800) && !Flag(0x82, 4)
  {}

  lemma PlainSectionOk(obj: Relocatable, i: nat, locals: nat)
    requires WellFormed(obj) && i < |obj.sections|
    requires var s := obj.sections[i]; TextSection(s) || SymbolSection(s, locals) || StringSection(obj, s)
    ensures SectionOk(obj, Absent, i)
  {
    FlagsOf();
  }

  lemma NullSymbolOk(obj: Relocatable)
    requires WellFormed(obj) && obj.symbols[0] == Symbol([], 0, 0, 0, 0, 0) && obj.sections[obj.symbolTable].info > 0
    ensures SymbolOk(obj, 0)
  {}

  lemma DefinitionAdmitted(obj: Relocatable, i: nat, value: nat, size: nat)
    requires WellFormed(obj) && i < |obj.symbols| && obj.symbols[i] == Definition(value, size)
    requires TextSection(obj.sections[1]) && size > 0 && value + size <= obj.sections[1].size
    requires obj.sections[obj.symbolTable].info <= i
    ensures SymbolOk(obj, i) && DefinitionOk(obj, obj.symbols[i])
  {
    FlagsOf();
  }

  lemma {:induction false} NoRelocations(obj: Relocatable, n: nat)
    requires WellFormed(obj) && n <= |obj.sections| && forall i | 0 <= i < n :: !IsRelocation(obj.sections[i])
    ensures Relocations(obj, n) == []
  {
    if n > 0 {
      NoRelocations(obj, n - 1);
    }
  }

  /** A definition alone: code, symbols and strings, in either class and byte order, for every machine but
      the one whose metadata is required. It calibrates. */
  lemma PlainObject(obj: Relocatable, fixture: Fixture, value: nat, size: nat)
    requires WellFormed(obj) && InOrder(obj) && Unmarked(obj) && |obj.sections| == 5 && obj.symbolTable == 2
    requires TextSection(obj.sections[1]) && SymbolSection(obj.sections[2], 1)
    requires StringSection(obj, obj.sections[3]) && StringSection(obj, obj.sections[4])
    requires obj.symbols == [Symbol([], 0, 0, 0, 0, 0), Definition(value, size)]
    requires size > 0 && value + size <= obj.sections[1].size
    requires 0 < obj.machine <= 0xffff
    requires fixture == Fixture(if obj.class_ == Elf32 then 32 else 64, obj.machine, true, obj.little)
    ensures Calibrates(obj, fixture, 1)
  {
    NoneMarked(obj.sections);
    forall i | 1 <= i < 5 ensures SectionOk(obj, Absent, i) {
      PlainSectionOk(obj, i, 1);
    }
    InOrderIsDisjoint(obj);
    NullSymbolOk(obj);
    DefinitionAdmitted(obj, 1, value, size);
    NoRelocations(obj, 5);
  }

  // ----- with the ARM unwind metadata

  /** The exception index of section 1, and one relocation section of two entries for it. */
  predicate ExidxSection(s: Section) {
    s.kind == 0x70000001 && s.name == Ascii(".ARM.exidx") && s.flags == 0x82 && s.address == 0 && s.link == 1 &&
    s.info == 0 && s.size == 8 && Aligned(s)
  }

  predicate RelSection(s: Section) {
    s.kind == 9 && s.flags == 0 && s.address == 0 && s.link == 4 && s.info == 2 && s.entrySize == 8 && s.size == 16 &&
    Aligned(s)
  }

  lemma ArmSectionOk(obj: Relocatable, i: nat)
    requires WellFormed(obj) && i < |obj.sections| && obj.machine == 40 && TextSection(obj.sections[1])
    requires ExidxSection(obj.sections[i]) || RelSection(obj.sections[i])
    ensures SectionOk(obj, Absent, i)
  {
    FlagsOf();
  }

  lemma ArmEntries(obj: Relocatable)
    requires WellFormed(obj) && |obj.sections| > 3 && obj.class_ == Elf32 && RelSection(obj.sections[3])
    requires EntryEncodes(obj, obj.sections[3].offset, 0, 2, 0) && EntryEncodes(obj, obj.sections[3].offset + 8, 0, 1, 42)
    ensures EntrySize(obj, obj.sections[3]) == 8
    ensures RelocationAt(obj, 3, 0) == Relocation(3, 2, 0, 2, 0) && RelocationAt(obj, 3, 1) == Relocation(3, 2, 0, 1, 42)
  {
    RelocationEncoded(obj, 3, 0, 0, 2, 0);
    RelocationEncoded(obj, 3, 1, 0, 1, 42);
  }

  lemma ArmSectionRelocates(obj: Relocatable)
    requires WellFormed(obj) && |obj.sections| == 7 && obj.symbolTable == 4 && obj.class_ == Elf32
    requires RelSection(obj.sections[3]) && ExidxSection(obj.sections[2]) && |obj.symbols| == 4
    requires EntrySize(obj, obj.sections[3]) == 8
    requires RelocationAt(obj, 3, 0) == Relocation(3, 2, 0, 2, 0) && RelocationAt(obj, 3, 1) == Relocation(3, 2, 0, 1, 42)
    ensures RelocationSectionOk(obj, 3)
  {
    FlagsOf();
  }

  /** Sections without relocations add no rows. */
  lemma {:induction false} NoMoreRelocations(obj: Relocatable, from: nat, n: nat)
    requires WellFormed(obj) && from <= n <= |obj.sections|
    requires forall i | from <= i < n :: !IsRelocation(obj.sections[i])
    ensures Relocations(obj, n) == Relocations(obj, from)
  {
    if from < n {
      NoMoreRelocations(obj, from, n - 1);
    }
  }

  lemma EntriesTwo(obj: Relocatable, i: nat, a: Relocation, b: Relocation)
    requires WellFormed(obj) && i < |obj.sections| && IsRelocation(obj.sections[i])
    requires obj.sections[i].size / EntrySize(obj, obj.sections[i]) == 2
    requires RelocationAt(obj, i, 0) == a && RelocationAt(obj, i, 1) == b
    ensures Entries(obj, i, 2) == [a, b]
  {}

  lemma ArmRows(obj: Relocatable, a: Relocation, b: Relocation)
    requires WellFormed(obj) && |obj.sections| == 7 && RelSection(obj.sections[3]) && EntrySize(obj, obj.sections[3]) == 8
    requires forall i | 0 <= i < 7 && i != 3 :: !IsRelocation(obj.sections[i])
    requires RelocationAt(obj, 3, 0) == a && RelocationAt(obj, 3, 1) == b
    ensures Relocations(obj, 7) == [a, b]
  {
    EntriesTwo(obj, 3, a, b);
    NoRelocations(obj, 3);
    RelocationsStep(obj, 3);
    NoMoreRelocations(obj, 4, 7);
    assert [] + [a, b] == [a, b];
  }

  lemma RelocationsStep(obj: Relocatable, i: nat)
    requires WellFormed(obj) && i < |obj.sections| && IsRelocation(obj.sections[i])
    ensures Relocations(obj, i + 1) ==
      Relocations(obj, i) + Entries(obj, i, obj.sections[i].size / EntrySize(obj, obj.sections[i]))
  {}

  lemma UnwindReference(rows: seq<Relocation>)
    requires rows == [Relocation(3, 2, 0, 2, 0), Relocation(3, 2, 0, 1, 42)]
    ensures References(rows, 2) == [rows[0]]
  {
    assert rows[..1] == [rows[0]] && rows[..1][..0] == [];
    assert References(rows[..1], 2) == [rows[0]];
  }

  /** A section symbol, the undefined unwind routine and the definition. */
  predicate ArmSymbols(obj: Relocatable, value: nat, size: nat) {
    obj.symbols == [Symbol([], 0, 0, 0, 0, 0), Symbol([], 0, 0, 3, 0, 1),
                    Symbol(Ascii("__aeabi_unwind_cpp_pr0"), 0, 0, 0x10, 0, 0), Definition(value, size)]
  }

  lemma ArmSymbolsOk(obj: Relocatable, value: nat, size: nat)
    requires WellFormed(obj) && obj.symbolTable == 4 && |obj.sections| == 7 && ArmSymbols(obj, value, size)
    requires TextSection(obj.sections[1]) && SymbolSection(obj.sections[4], 2)
    requires size > 0 && value + size <= obj.sections[1].size
    ensures SymbolsOk(obj) && OnlyDefinition(obj, 3) && DefinitionOk(obj, obj.symbols[3])
  {
    NullSymbolOk(obj);
    assert SymbolOk(obj, 1) && SymbolOk(obj, 2);
    DefinitionAdmitted(obj, 3, value, size);
  }

  lemma ArmUndefinedOk(obj: Relocatable, value: nat, size: nat, rows: seq<Relocation>)
    requires |obj.sections| == 7 && obj.class_ == Elf32 && obj.machine == 40 && ArmSymbols(obj, value, size)
    requires ExidxSection(obj.sections[2]) && RelSection(obj.sections[3])
    requires rows == [Relocation(3, 2, 0, 2, 0), Relocation(3, 2, 0, 1, 42)]
    ensures AllUndefinedOk(obj, rows, 1)
  {
    UnwindReference(rows);
  }

  /** The same with the exception index of an ARM compiler: an R_ARM_NONE relocation that keeps the
      undefined __aeabi_unwind_cpp_pr0, and an R_ARM_PREL31 one to the code. It calibrates too. */
  lemma ArmObject(obj: Relocatable, fixture: Fixture, value: nat, size: nat)
    requires WellFormed(obj) && InOrder(obj) && Unmarked(obj) && |obj.sections| == 7 && obj.symbolTable == 4
    requires obj.class_ == Elf32 && obj.machine == 40
    requires TextSection(obj.sections[1]) && ExidxSection(obj.sections[2]) && RelSection(obj.sections[3])
    requires SymbolSection(obj.sections[4], 2)
    requires StringSection(obj, obj.sections[5]) && StringSection(obj, obj.sections[6])
    requires Holds(obj.data, obj.sections[3].offset, [F(0, 4), F(0x200, 4)], obj.little)
    requires Holds(obj.data, obj.sections[3].offset + 8, [F(0, 4), F(0x12a, 4)], obj.little)
    requires ArmSymbols(obj, value, size) && size > 0 && value + size <= obj.sections[1].size
    requires fixture == Fixture(32, 40, true, obj.little)
    ensures Calibrates(obj, fixture, 3)
  {
    NoneMarked(obj.sections);
    forall i | 1 <= i < 7 ensures SectionOk(obj, Absent, i) {
      if i == 2 || i == 3 {
        ArmSectionOk(obj, i);
      } else {
        PlainSectionOk(obj, i, 2);
      }
    }
    InOrderIsDisjoint(obj);
    ArmSymbolsOk(obj, value, size);
    ArmEntries(obj);
    ArmSectionRelocates(obj);
    ArmRows(obj, Relocation(3, 2, 0, 2, 0), Relocation(3, 2, 0, 1, 42));
    ArmUndefinedOk(obj, value, size, Relocations(obj, 7));
  }
}
