/** The complete-table gate and the calibration definition behind it. */
module ElfTables {
  import opened Common
  import opened ElfMips
  import opened ElfReader
  import opened Ranges

  datatype Relocation = Relocation(section: nat, target: nat, address: nat, symbol: nat, kind: nat)

  /** Whether a flag word has the bit of a power of two. */
  predicate Flag(flags: nat, bit: nat)
    requires bit > 0
  {
    flags / bit % 2 == 1
  }

  /** Allocated and executable: flags & 6 == 6. */
  predicate AllocExec(flags: nat) {
    Flag(flags, 2) && Flag(flags, 4)
  }

  /** Documented Alpha function metadata; the field at 48 is the header's e_flags. */
  predicate AlphaMetadata(obj: Relocatable, s: Symbol)
    requires WellFormed(obj)
  {
    obj.class_ == Elf64 && obj.little && obj.machine == 0x9026 && Field(obj.data, true, 48, 4) == 0 &&
    (s.other == 0x80 || s.other == 0x88) && (s.info == 0x02 || s.info == 0x12) &&
    s.name != [] && s.size > 0 && 0 < s.section < |obj.sections| &&
    var section := obj.sections[s.section];
    section.kind == 1 && AllocExec(section.flags) && !Flag(section.flags, 1) && s.value + s.size <= section.size
  }

  const EXIDX: seq<byte> := Ascii(".ARM.exidx")

  predicate Backed(s: Section) {
    s.kind != 8 && s.size != 0
  }

  predicate KnownKind(obj: Relocatable, mips: Mips, kind: nat) {
    kind in {1, 2, 3, 4, 7, 8, 9} ||
    (obj.machine == 40 && kind in {0x70000001, 0x70000003}) ||
    (mips == Admitted && MipsKind(kind))
  }

  predicate SectionOk(obj: Relocatable, mips: Mips, i: nat)
    requires WellFormed(obj) && i < |obj.sections|
  {
    var s := obj.sections[i];
    KnownKind(obj, mips, s.kind) && s.address == 0 &&
    !Flag(s.flags, 0x200) && !Flag(s.flags, 0x400) && !Flag(s.flags, 0x800) &&
    (s.alignment == 0 || s.offset % s.alignment == 0) &&
    (s.kind == 3 ==>
       s.size > 0 && obj.data[s.offset] == 0 && obj.data[s.offset + s.size - 1] == 0) &&
    (s.kind in {1, 3, 7, 8, 0x70000003} ==> s.link == s.info == 0) &&
    (s.kind == 0x70000001 ==>
       s.name == EXIDX && s.flags == 0x82 && s.info == 0 && 0 < s.link &&
       obj.sections[s.link].kind == 1 && AllocExec(obj.sections[s.link].flags))
  }

  function RangeOf(s: Section): Range {
    Range(s.offset, s.offset + s.size)
  }

  /** The ranges of the nonempty file-backed sections among the first n, the null section excluded. */
  function SectionRanges(sections: seq<Section>, n: nat): seq<Range>
    requires n <= |sections|
  {
    if n <= 1 then []
    else SectionRanges(sections, n - 1) + if Backed(sections[n - 1]) then [RangeOf(sections[n - 1])] else []
  }

  function HeaderRange(obj: Relocatable): Range {
    Range(0, HeaderSize(obj.class_))
  }

  function TableRange(obj: Relocatable): Range {
    Range(obj.sectionOffset, obj.sectionOffset + |obj.sections| * SectionSize(obj.class_))
  }

  function AllRanges(obj: Relocatable): seq<Range> {
    [HeaderRange(obj), TableRange(obj)] + SectionRanges(obj.sections, |obj.sections|)
  }

  /** The binding and the type packed in st_info. */
  function Binding(s: Symbol): nat { s.info / 16 }

  function Kind(s: Symbol): nat { s.info % 16 }

  predicate SymbolOk(obj: Relocatable, i: nat)
    requires WellFormed(obj) && i < |obj.symbols|
  {
    var s, n := obj.symbols[i], |obj.sections|;
    Binding(s) <= 2 && Kind(s) < 7 && (s.other < 4 || AlphaMetadata(obj, s)) &&
    (Binding(s) == 0 <==> i < obj.sections[obj.symbolTable].info) &&
    (if s.section == 0 then s.value == s.size == 0
     else if s.section == 0xfff1 then Kind(s) == 4 && Binding(s) == 0 && s.value == s.size == 0
     else s.section < n && s.value + s.size <= obj.sections[s.section].size) &&
    (Kind(s) == 3 ==> Binding(s) == 0 && 0 < s.section < n && s.value == s.size == 0) &&
    (Kind(s) == 4 ==> s.section == 0xfff1)
  }

  predicate SymbolsOk(obj: Relocatable)
    requires WellFormed(obj)
  {
    obj.symbols[0] == Symbol([], 0, 0, 0, 0, 0) &&
    0 < obj.sections[obj.symbolTable].info <= |obj.symbols| &&
    forall i | 0 <= i < |obj.symbols| :: SymbolOk(obj, i)
  }

  // ----- relocation sections

  predicate IsRelocation(s: Section) {
    s.kind == 4 || s.kind == 9
  }

  function EntrySize(obj: Relocatable, s: Section): (n: nat)
    ensures n > 0
  {
    if obj.class_ == Elf32 then if s.kind == 4 then 12 else 8 else if s.kind == 4 then 24 else 16
  }

  predicate RelocationHeaderOk(obj: Relocatable, s: Section)
    requires WellFormed(obj)
  {
    s.link == obj.symbolTable && 0 < s.info < |obj.sections| && s.entrySize == EntrySize(obj, s) &&
    s.size % EntrySize(obj, s) == 0 && !Flag(obj.sections[s.info].flags, 4)
  }

  /** Entry j of relocation section i; the two words hold the address and the packed symbol and kind. */
  function RelocationAt(obj: Relocatable, i: nat, j: nat): Relocation
    requires WellFormed(obj) && i < |obj.sections| && IsRelocation(obj.sections[i])
    requires j < obj.sections[i].size / EntrySize(obj, obj.sections[i])
  {
    var s := obj.sections[i];
    var step, w := EntrySize(obj, s), if obj.class_ == Elf32 then 4 else 8;
    EntryInside(s.size, step, j);
    var at := s.offset + j * step;
    assert at + w + w <= |obj.data|;
    var info := Field(obj.data, obj.little, at + w, w);
    var unit := if obj.class_ == Elf32 then 0x100 else 0x1_0000_0000;
    Relocation(i, s.info, Field(obj.data, obj.little, at, w), info / unit, info % unit)
  }

  lemma EntryInside(size: nat, step: nat, j: nat)
    requires step > 0 && j < size / step
    ensures j * step + step <= size
  {
    assert (j + 1) * step <= size / step * step;
    assert (j + 1) * step == j * step + step;
  }

  predicate RelocationSectionOk(obj: Relocatable, i: nat)
    requires WellFormed(obj) && i < |obj.sections|
  {
    var s := obj.sections[i];
    IsRelocation(s) ==>
      RelocationHeaderOk(obj, s) &&
      forall j | 0 <= j < s.size / EntrySize(obj, s) ::
        RelocationAt(obj, i, j).symbol < |obj.symbols| &&
        RelocationAt(obj, i, j).address < obj.sections[s.info].size
  }

  function Entries(obj: Relocatable, i: nat, n: nat): (r: seq<Relocation>)
    requires WellFormed(obj) && i < |obj.sections| && IsRelocation(obj.sections[i])
    requires n <= obj.sections[i].size / EntrySize(obj, obj.sections[i])
    ensures |r| == n
  {
    seq(n, j requires 0 <= j < n => RelocationAt(obj, i, j))
  }

  /** The relocation rows of the first n sections. */
  function Relocations(obj: Relocatable, n: nat): seq<Relocation>
    requires WellFormed(obj) && n <= |obj.sections|
  {
    if n == 0 then []
    else
      var s := obj.sections[n - 1];
      Relocations(obj, n - 1) +
      if IsRelocation(s) then Entries(obj, n - 1, s.size / EntrySize(obj, s)) else []
  }

  predicate SectionsOk(obj: Relocatable, mips: Mips)
    requires WellFormed(obj)
  {
    forall i | 1 <= i < |obj.sections| :: SectionOk(obj, mips, i)
  }

  /** What the gate admits, with disjointness said of all pairs. */
  predicate Complete(obj: Relocatable)
    requires WellFormed(obj)
  {
    MipsMetadata(obj) != Refused && SectionsOk(obj, MipsMetadata(obj)) &&
    PairwiseDisjoint(AllRanges(obj)) && SymbolsOk(obj) &&
    forall i | 0 <= i < |obj.sections| :: RelocationSectionOk(obj, i)
  }

  // ----- the gate

  lemma {:induction false} SectionRangesNonEmpty(sections: seq<Section>, n: nat)
    requires n <= |sections|
    ensures NonEmpty(SectionRanges(sections, n))
  {
    if n > 1 {
      SectionRangesNonEmpty(sections, n - 1);
    }
  }

  lemma AllRangesNonEmpty(obj: Relocatable)
    requires WellFormed(obj)
    ensures NonEmpty(AllRanges(obj))
  {
    SectionRangesNonEmpty(obj.sections, |obj.sections|);
    assert |obj.sections| * SectionSize(obj.class_) > 0;
  }

  method CheckSections(obj: Relocatable, mips: Mips) returns (ok: bool, ranges: seq<Range>)
    requires WellFormed(obj)
    ensures ok <==> SectionsOk(obj, mips)
    ensures ok ==> ranges == AllRanges(obj)
  {
    ranges := [HeaderRange(obj), TableRange(obj)];
    for i := 1 to |obj.sections|
      invariant forall j | 1 <= j < i :: SectionOk(obj, mips, j)
      invariant ranges == [HeaderRange(obj), TableRange(obj)] + SectionRanges(obj.sections, i)
    {
      if !SectionOk(obj, mips, i) {
        return false, ranges;
      }
      if Backed(obj.sections[i]) {
        ranges := ranges + [RangeOf(obj.sections[i])];
      }
    }
    ok := true;
  }

  method CheckNeighbours(ranges: seq<Range>) returns (ok: bool)
    ensures ok <==> NeighboursApart(ranges)
  {
    var i := 1;
    while i < |ranges|
      invariant 1 <= i && forall j | 0 < j < i && j < |ranges| :: ranges[j - 1].end <= ranges[j].start
    {
      if ranges[i - 1].end > ranges[i].start {
        return false;
      }
      i := i + 1;
    }
    return true;
  }

  method CheckSymbols(obj: Relocatable) returns (ok: bool)
    requires WellFormed(obj)
    ensures ok <==> SymbolsOk(obj)
  {
    var firstGlobal := obj.sections[obj.symbolTable].info;
    if obj.symbols[0] != Symbol([], 0, 0, 0, 0, 0) || !(0 < firstGlobal <= |obj.symbols|) {
      return false;
    }
    for i := 0 to |obj.symbols|
      invariant forall j | 0 <= j < i :: SymbolOk(obj, j)
    {
      if !SymbolOk(obj, i) {
        return false;
      }
    }
    return true;
  }

  method ReadRelocations(obj: Relocatable, i: nat) returns (r: Option<seq<Relocation>>)
    requires WellFormed(obj) && i < |obj.sections| && IsRelocation(obj.sections[i])
    ensures r.Some? <==> RelocationSectionOk(obj, i)
    ensures r.Some? ==> r.value == Entries(obj, i, obj.sections[i].size / EntrySize(obj, obj.sections[i]))
  {
    var s := obj.sections[i];
    if !RelocationHeaderOk(obj, s) {
      return None;
    }
    var n := s.size / EntrySize(obj, s);
    var out := [];
    for j := 0 to n
      invariant out == Entries(obj, i, j)
      invariant forall k | 0 <= k < j ::
        RelocationAt(obj, i, k).symbol < |obj.symbols| && RelocationAt(obj, i, k).address < obj.sections[s.info].size
    {
      var row := RelocationAt(obj, i, j);
      if row.symbol >= |obj.symbols| || row.address >= obj.sections[s.info].size {
        return None;
      }
      out := out + [row];
    }
    return Some(out);
  }

  method CollectRelocations(obj: Relocatable) returns (r: Option<seq<Relocation>>)
    requires WellFormed(obj)
    ensures r.Some? <==> forall i | 0 <= i < |obj.sections| :: RelocationSectionOk(obj, i)
    ensures r.Some? ==> r.value == Relocations(obj, |obj.sections|)
  {
    var relocations: seq<Relocation> := [];
    for i := 0 to |obj.sections|
      invariant relocations == Relocations(obj, i)
      invariant forall j | 0 <= j < i :: RelocationSectionOk(obj, j)
    {
      if IsRelocation(obj.sections[i]) {
        var entries := ReadRelocations(obj, i);
        if entries == None {
          return None;
        }
        relocations := relocations + entries.value;
      }
    }
    return Some(relocations);
  }

  /** The gate sorts the ranges and compares neighbours; what it admits is said of all pairs. */
  method CompleteTables(obj: Relocatable) returns (r: Result<seq<Relocation>>)
    requires WellFormed(obj)
    ensures r.Ok? <==> Complete(obj)
    ensures r.Ok? ==> r.value == Relocations(obj, |obj.sections|)
  {
    var mips := MipsMetadata(obj);
    if mips == Refused {
      return Rejected;
    }
    var sectionsOk, ranges := CheckSections(obj, mips);
    if !sectionsOk {
      return Rejected;
    }
    AllRangesNonEmpty(obj);
    SortedCheckIsPairwise(ranges);
    var apart := CheckNeighbours(Sort(ranges));
    if !apart {
      return Rejected;
    }
    var symbolsOk := CheckSymbols(obj);
    if !symbolsOk {
      return Rejected;
    }
    var relocations := CollectRelocations(obj);
    if relocations == None {
      return Rejected;
    }
    return Ok(relocations.value);
  }

  // ----- what admission gives

  lemma {:induction false} RangeListed(sections: seq<Section>, n: nat, i: nat)
    requires 1 <= i < n <= |sections| && Backed(sections[i])
    ensures RangeOf(sections[i]) in SectionRanges(sections, n)
  {
    if i + 1 < n {
      RangeListed(sections, n - 1, i);
    }
  }

  lemma {:induction false} SectionsDisjoint(sections: seq<Section>, n: nat, i: nat, j: nat)
    requires 1 <= i < j < n <= |sections| && Backed(sections[i]) && Backed(sections[j])
    requires PairwiseDisjoint(SectionRanges(sections, n))
    ensures Disjoint(RangeOf(sections[i]), RangeOf(sections[j]))
  {
    var r, before := SectionRanges(sections, n), SectionRanges(sections, n - 1);
    assert before == r[..|before|];
    if j + 1 < n {
      assert PairwiseDisjoint(before) by {
        forall a, b | 0 <= a < b < |before| ensures Disjoint(before[a], before[b]) {
          assert Disjoint(r[a], r[b]);
        }
      }
      SectionsDisjoint(sections, n - 1, i, j);
    } else {
      RangeListed(sections, n - 1, i);
      var a :| 0 <= a < |before| && before[a] == RangeOf(sections[i]);
      assert Disjoint(r[a], r[|before|]);
    }
  }

  lemma {:induction false} SectionRangesInside(obj: Relocatable, n: nat)
    requires WellFormed(obj) && n <= |obj.sections|
    ensures Inside(SectionRanges(obj.sections, n), |obj.data|)
  {
    if n > 1 {
      SectionRangesInside(obj, n - 1);
    }
  }

  /** In an admitted object the header, the section table and all nonempty file-backed sections are
      pairwise disjoint and inside the file, so together they are no larger than it. */
  lemma AdmittedIsDisjoint(obj: Relocatable)
    requires WellFormed(obj) && Complete(obj)
    ensures Disjoint(HeaderRange(obj), TableRange(obj))
    ensures forall i | 1 <= i < |obj.sections| && Backed(obj.sections[i]) ::
      Disjoint(HeaderRange(obj), RangeOf(obj.sections[i])) && Disjoint(TableRange(obj), RangeOf(obj.sections[i])) &&
      RangeOf(obj.sections[i]).end <= |obj.data|
    ensures forall i, j | 1 <= i < j < |obj.sections| && Backed(obj.sections[i]) && Backed(obj.sections[j]) ::
      Disjoint(RangeOf(obj.sections[i]), RangeOf(obj.sections[j]))
    ensures TotalSize(AllRanges(obj)) <= |obj.data|
  {
    var n, r := |obj.sections|, AllRanges(obj);
    var rest := SectionRanges(obj.sections, n);
    ConsPairwise(HeaderRange(obj), [TableRange(obj)] + rest);
    ConsPairwise(TableRange(obj), rest);
    ConsClear(HeaderRange(obj), TableRange(obj), rest);
    assert r == [HeaderRange(obj)] + ([TableRange(obj)] + rest);
    forall i | 1 <= i < n && Backed(obj.sections[i])
      ensures Disjoint(HeaderRange(obj), RangeOf(obj.sections[i])) && Disjoint(TableRange(obj), RangeOf(obj.sections[i]))
    {
      RangeListed(obj.sections, n, i);
    }
    forall i, j | 1 <= i < j < n && Backed(obj.sections[i]) && Backed(obj.sections[j])
      ensures Disjoint(RangeOf(obj.sections[i]), RangeOf(obj.sections[j]))
    {
      SectionsDisjoint(obj.sections, n, i, j);
    }
    SectionRangesInside(obj, n);
    AllRangesNonEmpty(obj);
    DisjointSize(r, |obj.data|);
  }

  /** Said of bytes: no position is in the header and the table, in one of them and a section, or in two
      sections that are in the file; and every position of a section is in the file. */
  lemma BytesOwnedOnce(obj: Relocatable, p: nat)
    requires WellFormed(obj) && Complete(obj)
    ensures var header, rowSize := if obj.class_ == Elf32 then 52 else 64, if obj.class_ == Elf32 then 40 else 64;
      var inTable := obj.sectionOffset <= p < obj.sectionOffset + |obj.sections| * rowSize;
      !(p < header && inTable) &&
      forall i | 1 <= i < |obj.sections| && InSection(obj, i, p) :: header <= p < |obj.data| && !inTable
    ensures forall i, j | 1 <= i < j < |obj.sections| :: !(InSection(obj, i, p) && InSection(obj, j, p))
  {
    AdmittedIsDisjoint(obj);
    assert forall i | 1 <= i < |obj.sections| && InSection(obj, i, p) :: Backed(obj.sections[i]);
  }

  /** Position p of the file belongs to section i. */
  predicate InSection(obj: Relocatable, i: nat, p: nat)
    requires i < |obj.sections|
  {
    var s := obj.sections[i];
    s.kind != 8 && s.offset <= p < s.offset + s.size
  }

  lemma {:induction false} RelocationTargets(obj: Relocatable, n: nat)
    requires WellFormed(obj) && Complete(obj) && n <= |obj.sections|
    ensures forall k | 0 <= k < |Relocations(obj, n)| ::
      var row := Relocations(obj, n)[k];
      row.section < n && row.target < |obj.sections| && !Flag(obj.sections[row.target].flags, 4) &&
      row.symbol < |obj.symbols| && row.address < obj.sections[row.target].size
  {
    if n > 0 {
      RelocationTargets(obj, n - 1);
      assert RelocationSectionOk(obj, n - 1);
    }
  }

  // ----- the calibration definition

  const DEFINITION: seq<byte> := Ascii("fragma_common24_compiler_calibration")
  const UNWIND: seq<byte> := Ascii("__aeabi_unwind_cpp_pr0")

  /** The already derived observation of the fixture. */
  datatype Fixture = Fixture(bits: int, machine: int, relocatable: bool, little: bool)

  function Bits(c: Class): int { if c == Elf32 then 32 else 64 }

  predicate FixtureOk(obj: Relocatable, f: Fixture) {
    0 < f.machine <= 0xffff && f.relocatable && f.bits == Bits(obj.class_) && f.little == obj.little &&
    f.machine == obj.machine
  }

  /** Symbol k is the only one with the definition's name. */
  predicate OnlyDefinition(obj: Relocatable, k: nat) {
    k < |obj.symbols| && forall i | 0 <= i < |obj.symbols| :: obj.symbols[i].name == DEFINITION <==> i == k
  }

  /** A global nonempty function in allocated executable read-only file-backed storage. */
  predicate DefinitionOk(obj: Relocatable, s: Symbol)
    requires WellFormed(obj)
  {
    s.info == 0x12 && (s.other == 0 || AlphaMetadata(obj, s)) && s.size > 0 && 0 < s.section < |obj.sections| &&
    var section := obj.sections[s.section];
    section.kind == 1 && AllocExec(section.flags) && !Flag(section.flags, 1)
  }

  function References(rows: seq<Relocation>, symbol: nat): seq<Relocation> {
    if rows == [] then []
    else References(rows[..|rows| - 1], symbol) + if rows[|rows| - 1].symbol == symbol then [rows[|rows| - 1]] else []
  }

  /** An undefined symbol is only admitted as ARM unwind metadata of the definition's section. */
  predicate UndefinedOk(obj: Relocatable, rows: seq<Relocation>, i: nat, section: nat)
    requires i < |obj.symbols|
  {
    var item, refs := obj.symbols[i], References(rows, i);
    obj.class_ == Elf32 && obj.machine == 40 && item.name == UNWIND && item.info == 0x10 && item.other == 0 &&
    |refs| == 1 &&
    var row := refs[0];
    row.section < |obj.sections| && row.target < |obj.sections| && row.address == row.kind == 0 &&
    obj.sections[row.section].kind == 9 &&
    obj.sections[row.target].kind == 0x70000001 && obj.sections[row.target].link == section &&
    obj.sections[row.target].size == 8
  }

  predicate Undefined(obj: Relocatable, i: nat) {
    1 <= i < |obj.symbols| && obj.symbols[i].section == 0
  }

  predicate AllUndefinedOk(obj: Relocatable, rows: seq<Relocation>, section: nat) {
    (forall i | 1 <= i < |obj.symbols| && Undefined(obj, i) :: UndefinedOk(obj, rows, i, section)) &&
    forall i, j | 1 <= i < j < |obj.symbols| :: !(Undefined(obj, i) && Undefined(obj, j))
  }

  predicate Calibrates(obj: Relocatable, fixture: Fixture, k: nat)
    requires WellFormed(obj)
  {
    FixtureOk(obj, fixture) && Complete(obj) && OnlyDefinition(obj, k) && DefinitionOk(obj, obj.symbols[k]) &&
    AllUndefinedOk(obj, Relocations(obj, |obj.sections|), obj.symbols[k].section)
  }

  /** The definition's symbol, the relocation count, and the bytes that are hashed. */
  datatype Observation = Observation(symbol: nat, relocations: nat, content: seq<byte>)

  /** The definition's range in the file. */
  function BodyRange(obj: Relocatable, s: Symbol): Range
    requires s.section < |obj.sections|
  {
    var start := obj.sections[s.section].offset + s.value;
    Range(start, start + s.size)
  }

  /** The bytes of the file in that range. */
  predicate IsBody(obj: Relocatable, k: nat, content: seq<byte>) {
    k < |obj.symbols| && obj.symbols[k].section < |obj.sections| &&
    var range := BodyRange(obj, obj.symbols[k]);
    range.end <= |obj.data| && content == obj.data[range.start..range.end]
  }

  method FindDefinition(obj: Relocatable) returns (k: Option<nat>)
    ensures k.Some? ==> OnlyDefinition(obj, k.value)
    ensures k == None ==> forall j: nat :: !OnlyDefinition(obj, j)
  {
    k := None;
    for i := 0 to |obj.symbols|
      invariant k == None ==> forall j | 0 <= j < i :: obj.symbols[j].name != DEFINITION
      invariant k.Some? ==> k.value < i
      invariant k.Some? ==> forall j | 0 <= j < i :: obj.symbols[j].name == DEFINITION <==> j == k.value
    {
      if obj.symbols[i].name == DEFINITION {
        if k.Some? {
          assert obj.symbols[k.value].name == DEFINITION;
          forall j: nat ensures !OnlyDefinition(obj, j) {
            if j == i {
              assert obj.symbols[k.value].name == DEFINITION && k.value != j;
            }
          }
          return None;
        }
        k := Some(i);
      }
    }
    forall j: nat ensures k == None ==> !OnlyDefinition(obj, j) {
      if j < |obj.symbols| {
        assert k == None ==> obj.symbols[j].name != DEFINITION;
      }
    }
  }

  method CheckUndefined(obj: Relocatable, rows: seq<Relocation>, section: nat) returns (ok: bool)
    ensures ok <==> AllUndefinedOk(obj, rows, section)
  {
    var seen: Option<nat> := None;
    var i := 1;
    while i < |obj.symbols|
      invariant 1 <= i
      invariant seen.Some? ==> seen.value < i && Undefined(obj, seen.value)
      invariant forall j | 1 <= j < i && Undefined(obj, j) :: seen == Some(j) && UndefinedOk(obj, rows, j, section)
    {
      if obj.symbols[i].section == 0 {
        assert Undefined(obj, i);
        if !UndefinedOk(obj, rows, i, section) || seen.Some? {
          return false;
        }
        seen := Some(i);
      }
      i := i + 1;
    }
    return true;
  }

  method Calibrate(obj: Relocatable, fixture: Fixture) returns (r: Result<Observation>)
    requires WellFormed(obj)
    ensures r.Ok? ==> Calibrates(obj, fixture, r.value.symbol)
    ensures r.Ok? ==> r.value.relocations == |Relocations(obj, |obj.sections|)|
    ensures r.Ok? ==> IsBody(obj, r.value.symbol, r.value.content)
    ensures r == Rejected ==> forall k: nat :: !Calibrates(obj, fixture, k)
  {
    if !FixtureOk(obj, fixture) {
      return Rejected;
    }
    var relocations := CompleteTables(obj);
    if relocations == Rejected {
      return Rejected;
    }
    var k := FindDefinition(obj);
    if k == None {
      return Rejected;
    }
    forall j: nat | OnlyDefinition(obj, j) ensures j == k.value {
      assert obj.symbols[j].name == DEFINITION;
    }
    var symbol := obj.symbols[k.value];
    if !DefinitionOk(obj, symbol) {
      return Rejected;
    }
    var undefinedOk := CheckUndefined(obj, relocations.value, symbol.section);
    if !undefinedOk {
      return Rejected;
    }
    var content := ReadBody(obj, k.value);
    r := Ok(Observation(k.value, |relocations.value|, content));
  }

  method ReadBody(obj: Relocatable, k: nat) returns (content: seq<byte>)
    requires WellFormed(obj) && Complete(obj) && k < |obj.symbols| && DefinitionOk(obj, obj.symbols[k])
    ensures IsBody(obj, k, content)
  {
    BodyInside(obj, k);
    var symbol := obj.symbols[k];
    var section := obj.sections[symbol.section];
    var bytes := SectionBytes(obj, symbol.section);
    content := bytes[symbol.value..symbol.value + symbol.size];
    SliceOfSlice(obj.data, section.offset, section.size, symbol.value, symbol.size);
  }

  function SectionBytes(obj: Relocatable, i: nat): (b: seq<byte>)
    requires WellFormed(obj) && i < |obj.sections| && obj.sections[i].kind != 8
    ensures |b| == obj.sections[i].size
  {
    obj.data[obj.sections[i].offset..obj.sections[i].offset + obj.sections[i].size]
  }

  lemma SliceOfSlice(data: seq<byte>, off: nat, size: nat, value: nat, n: nat)
    requires off + size <= |data| && value + n <= size
    ensures data[off..off + size][value..value + n] == data[off + value..off + value + n]
  {
    var left, right := data[off..off + size][value..value + n], data[off + value..off + value + n];
    forall i | 0 <= i < n ensures left[i] == right[i] {
      assert data[off..off + size][value + i] == data[off + value + i];
    }
    assert left == right;
  }

  lemma BodyInside(obj: Relocatable, k: nat)
    requires WellFormed(obj) && Complete(obj) && k < |obj.symbols| && DefinitionOk(obj, obj.symbols[k])
    ensures var s := obj.symbols[k]; s.value + s.size <= obj.sections[s.section].size
  {
    assert SymbolOk(obj, k);
  }

  /** The hashed bytes are exactly the symbol's size, lie in its section, overlap no header, table or
      other section, and no relocation targets them. */
  lemma BodyIsItsOwn(obj: Relocatable, fixture: Fixture, k: nat)
    requires WellFormed(obj) && Calibrates(obj, fixture, k)
    ensures var s := obj.symbols[k];
      var body, section := BodyRange(obj, s), RangeOf(obj.sections[s.section]);
      body == Range(section.start + s.value, section.start + s.value + s.size) && s.size > 0 &&
      section.start <= body.start && body.end <= section.end <= |obj.data| &&
      Disjoint(body, HeaderRange(obj)) && Disjoint(body, TableRange(obj)) &&
      (forall i | 1 <= i < |obj.sections| && Backed(obj.sections[i]) && i != s.section ::
         Disjoint(body, RangeOf(obj.sections[i]))) &&
      forall j | 0 <= j < |Relocations(obj, |obj.sections|)| ::
        Relocations(obj, |obj.sections|)[j].target != s.section
    ensures var s := obj.symbols[k];
      var start := obj.sections[s.section].offset + s.value;
      forall content :: IsBody(obj, k, content) <==> content == obj.data[start..start + s.size]
  {
    var s := obj.symbols[k];
    BodyInside(obj, k);
    AdmittedIsDisjoint(obj);
    RelocationTargets(obj, |obj.sections|);
    assert Backed(obj.sections[s.section]);
    forall i | 1 <= i < |obj.sections| && Backed(obj.sections[i]) && i != s.section
      ensures Disjoint(BodyRange(obj, s), RangeOf(obj.sections[i]))
    {
      assert Disjoint(RangeOf(obj.sections[i]), RangeOf(obj.sections[s.section])) ||
             Disjoint(RangeOf(obj.sections[s.section]), RangeOf(obj.sections[i]));
    }
  }

  /** Raw bytes that read, with symbol table k, as an object whose symbol d calibrates. */
  ghost predicate CalibratesData(data: seq<byte>, machine: Machine, fixture: Fixture, k: nat, d: nat) {
    var c, little := ClassOf(machine), machine.littleEndian;
    Accepts(data, c, little, k) &&
    WellFormed(Object(data, c, little, k)) && Calibrates(Object(data, c, little, k), fixture, d)
  }

  /** From raw bytes to the hashed body: reading, the gate and the definition together. */
  method CalibrationObject(data: seq<byte>, machine: Option<Machine>, fixture: Fixture)
    returns (r: Result<Observation>, ghost obj: Relocatable)
    ensures r.Ok? ==>
              MachineOk(machine) && CalibratesData(data, machine.value, fixture, obj.symbolTable, r.value.symbol) &&
              obj == Object(data, ClassOf(machine.value), machine.value.littleEndian, obj.symbolTable) && obj.data == data
    ensures r.Ok? ==> IsBody(obj, r.value.symbol, r.value.content)
    ensures r == Rejected && MachineOk(machine) ==>
              forall k: nat, d: nat :: !CalibratesData(data, machine.value, fixture, k, d)
  {
    var parsed := ParseRelocatable(data, machine);
    if parsed == Rejected {
      obj := *;
      return Rejected, obj;
    }
    obj := parsed.value;
    var c, little := ClassOf(machine.value), machine.value.littleEndian;
    ReadIsWellFormed(data, c, little, ReadHeader(data, c, little), obj.symbolTable);
    r := Calibrate(parsed.value, fixture);
    forall k: nat, d: nat | CalibratesData(data, machine.value, fixture, k, d) ensures k == obj.symbolTable {
      SameTable(data, c, little, k, obj.symbolTable);
    }
  }

  /** At most one symbol table is accepted. */
  lemma SameTable(data: seq<byte>, c: Class, little: bool, k: nat, k': nat)
    requires Accepts(data, c, little, k) && Accepts(data, c, little, k')
    ensures k == k'
  {
    var h := ReadHeader(data, c, little);
    assert Rows(data, c, little, h.shoff, h.shnum)[k].kind == 2;
  }

  // ----- the raw symbol table of accepted bytes

  /** The st_info byte of entry i. */
  function InfoByte(data: seq<byte>, c: Class, table: Row, i: nat): byte
    requires table.offset + table.size <= |data| && i < table.size / SymbolSize(c)
  {
    EntryInside(table.size, SymbolSize(c), i);
    data[table.offset + i * SymbolSize(c) + if c == Elf32 then 12 else 4]
  }

  /** How many of the first n entries have local binding. */
  function LocalEntries(data: seq<byte>, c: Class, table: Row, n: nat): nat
    requires table.offset + table.size <= |data| && n <= table.size / SymbolSize(c)
  {
    if n == 0 then 0
    else LocalEntries(data, c, table, n - 1) + if InfoByte(data, c, table, n - 1) / 16 == 0 then 1 else 0
  }

  lemma OneByte(data: seq<byte>, little: bool, off: nat)
    requires off < |data|
    ensures Field(data, little, off, 1) == data[off]
  {
    assert Field(data, little, off, 0) == 0;
  }

  lemma EntryInfo(data: seq<byte>, c: Class, little: bool, table: Row, i: nat)
    requires table.offset + table.size <= |data| && i < table.size / SymbolSize(c)
    ensures EntryAt(data, c, little, table, i).info == InfoByte(data, c, table, i)
  {
    EntryInside(table.size, SymbolSize(c), i);
    OneByte(data, little, table.offset + i * SymbolSize(c) + if c == Elf32 then 12 else 4);
  }

  lemma {:induction false} CountLocals(data: seq<byte>, c: Class, table: Row, n: nat, first: nat)
    requires table.offset + table.size <= |data| && n <= table.size / SymbolSize(c)
    requires forall i | 0 <= i < n :: InfoByte(data, c, table, i) / 16 == 0 <==> i < first
    ensures LocalEntries(data, c, table, n) == if n < first then n else first
  {
    if n > 0 {
      CountLocals(data, c, table, n - 1, first);
    }
  }

  /** The row of the symbol table accepted at index k. */
  function SymbolRow(data: seq<byte>, c: Class, little: bool, k: nat): (row: Row)
    requires Accepts(data, c, little, k)
    ensures row.offset + row.size <= |data|
  {
    var h := ReadHeader(data, c, little);
    var rows := Rows(data, c, little, h.shoff, h.shnum);
    assert RowOk(rows[k], |rows|, |data|);
    rows[k]
  }

  /** The symbols carry the st_info bytes of the table's entries, and the section its sh_info. */
  predicate ReadFrom(symbols: seq<Symbol>, section: Section, data: seq<byte>, c: Class, row: Row)
    requires row.offset + row.size <= |data|
  {
    |symbols| == row.size / SymbolSize(c) && section.info == row.info &&
    forall i | 0 <= i < |symbols| :: symbols[i].info == InfoByte(data, c, row, i)
  }

  lemma SymbolsReadFrom(data: seq<byte>, c: Class, little: bool, row: Row, strings: seq<byte>, name: seq<byte>)
    requires row.offset + row.size <= |data| && SymbolsNamed(data, c, little, row, strings)
    ensures ReadFrom(SymbolsOf(data, c, little, row, strings), NameSection(row, name), data, c, row)
  {
    forall i | 0 <= i < row.size / SymbolSize(c)
      ensures SymbolsOf(data, c, little, row, strings)[i].info == InfoByte(data, c, row, i)
    {
      EntryInfo(data, c, little, row, i);
    }
  }

  lemma ObjectReadFrom(data: seq<byte>, c: Class, little: bool, k: nat)
    requires Accepts(data, c, little, k)
    ensures var obj := Object(data, c, little, k);
      obj.symbolTable == k < |obj.sections| &&
      ReadFrom(obj.symbols, obj.sections[k], data, c, SymbolRow(data, c, little, k))
  {
    var h := ReadHeader(data, c, little);
    var rows := Rows(data, c, little, h.shoff, h.shnum);
    var obj, strings := Object(data, c, little, k), SectionData(data, rows[rows[k].link]);
    SymbolsReadFrom(data, c, little, rows[k], strings, obj.sections[k].name);
  }

  /** sh_info is the number of entries whose st_info byte has local binding, those entries come first, and
      entry d is behind them. */
  predicate LocalsCounted(data: seq<byte>, c: Class, row: Row, d: nat)
    requires row.offset + row.size <= |data|
  {
    var n := row.size / SymbolSize(c);
    LocalEntries(data, c, row, n) == row.info <= d < n &&
    forall i | 0 <= i < n :: InfoByte(data, c, row, i) / 16 == 0 <==> i < row.info
  }

  /** What the gate's checks of the symbols say about the bytes. */
  lemma LocalsFirst(obj: Relocatable, data: seq<byte>, c: Class, row: Row, d: nat)
    requires WellFormed(obj) && SymbolsOk(obj) && row.offset + row.size <= |data|
    requires ReadFrom(obj.symbols, obj.sections[obj.symbolTable], data, c, row)
    requires d < |obj.symbols| && Binding(obj.symbols[d]) != 0
    ensures LocalsCounted(data, c, row, d)
  {
    forall i | 0 <= i < |obj.symbols| ensures InfoByte(data, c, row, i) / 16 == 0 <==> i < row.info {
      assert SymbolOk(obj, i);
    }
    CountLocals(data, c, row, |obj.symbols|, row.info);
  }

  lemma CalibratesGlobal(obj: Relocatable, fixture: Fixture, d: nat)
    requires WellFormed(obj) && Calibrates(obj, fixture, d)
    ensures SymbolsOk(obj) && d < |obj.symbols| && Binding(obj.symbols[d]) != 0
  {}

  /** In bytes that calibrate, read byte by byte, the definition is behind all local entries, and sh_info is
      their number. */
  lemma LocalsAreCounted(data: seq<byte>, machine: Machine, fixture: Fixture, k: nat, d: nat)
    requires CalibratesData(data, machine, fixture, k, d)
    ensures LocalsCounted(data, ClassOf(machine), SymbolRow(data, ClassOf(machine), machine.littleEndian, k), d)
  {
    var c, little := ClassOf(machine), machine.littleEndian;
    var obj, row := Object(data, c, little, k), SymbolRow(data, c, little, k);
    ObjectReadFrom(data, c, little, k);
    CalibratesGlobal(obj, fixture, d);
    LocalsFirst(obj, data, c, row, d);
  }
}
