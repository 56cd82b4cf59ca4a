/** The MIPS metadata sections of the one admitted compiler output. */
module ElfMips {
  import opened ElfLayout
  import opened ElfReader

  /** None of the sections, all of them exactly as expected, or the source's error. */
  datatype Mips = Absent | Admitted | Refused

  const REGINFO: seq<byte> := Ascii(".reginfo")
  const ABIFLAGS: seq<byte> := Ascii(".MIPS.abiflags")
  const ADDRSIG: seq<byte> := Ascii(".llvm_addrsig")

  const REGINFO_KIND := 0x70000006
  const ABIFLAGS_KIND := 0x7000002a
  const ADDRSIG_KIND := 0x6fff4c03

  predicate MipsKind(kind: nat) {
    kind == REGINFO_KIND || kind == ABIFLAGS_KIND || kind == ADDRSIG_KIND
  }

  predicate Marked(s: Section) {
    s.name == REGINFO || s.name == ABIFLAGS || s.name == ADDRSIG || MipsKind(s.kind)
  }

  predicate Bears(s: Section, name: seq<byte>, kind: nat) {
    s.name == name || s.kind == kind
  }

  /** The sections with the given name or kind, in order. */
  function Matching(sections: seq<Section>, name: seq<byte>, kind: nat): (r: seq<Section>)
    ensures forall i | 0 <= i < |r| :: r[i] in sections && Bears(r[i], name, kind)
  {
    if sections == [] then []
    else (if Bears(sections[0], name, kind) then [sections[0]] else []) + Matching(sections[1..], name, kind)
  }

  function CountMarked(sections: seq<Section>): nat {
    if sections == [] then 0 else (if Marked(sections[0]) then 1 else 0) + CountMarked(sections[1..])
  }

  predicate OnRoute(obj: Relocatable)
    requires WellFormed(obj)
  {
    obj.class_ == Elf32 && obj.little && obj.machine == 8 && Field(obj.data, true, 36, 4) == 0x70001001
  }

  /** Exactly one section has the name or the kind, and it has both. */
  predicate OneMatch(sections: seq<Section>, name: seq<byte>, kind: nat) {
    var r := Matching(sections, name, kind);
    |r| == 1 && r[0].name == name && r[0].kind == kind
  }

  predicate Shape(s: Section, flags: nat, size: nat, link: nat, alignment: nat, entrySize: nat) {
    s.flags == flags && s.address == 0 && s.size == size && s.link == link && s.info == 0 &&
    s.alignment == alignment && s.entrySize == entrySize
  }

  predicate SelectedOk(obj: Relocatable, reginfo: Section, abi: Section, addrsig: Section) {
    Shape(reginfo, 2, 24, 0, 4, 24) &&
    Holds(obj.data, reginfo.offset, [F(0x80000001, 4), F(0, 4), F(0, 4), F(0, 4), F(0, 4), F(0, 4)], true) &&
    Shape(abi, 2, 24, 0, 8, 24) &&
    Holds(obj.data, abi.offset,
          [F(0, 2), F(32, 1), F(2, 1), F(1, 1), F(0, 1), F(0, 1), F(3, 1), F(0, 4), F(0, 4), F(1, 4), F(0, 4)], true) &&
    Shape(addrsig, 0x80000000, 0, obj.symbolTable, 1, 0)
  }

  predicate MetadataOk(obj: Relocatable) {
    OneMatch(obj.sections, REGINFO, REGINFO_KIND) && OneMatch(obj.sections, ABIFLAGS, ABIFLAGS_KIND) &&
    OneMatch(obj.sections, ADDRSIG, ADDRSIG_KIND) && CountMarked(obj.sections) == 3 &&
    SelectedOk(obj, Matching(obj.sections, REGINFO, REGINFO_KIND)[0],
               Matching(obj.sections, ABIFLAGS, ABIFLAGS_KIND)[0], Matching(obj.sections, ADDRSIG, ADDRSIG_KIND)[0])
  }

  function MipsMetadata(obj: Relocatable): Mips
    requires WellFormed(obj)
  {
    if !OnRoute(obj) then if CountMarked(obj.sections) == 0 then Absent else Refused
    else if MetadataOk(obj) then Admitted
    else Refused
  }

  // ----- what the outcome says about every section

  /** One of the three names with its kind. */
  predicate MetadataPair(name: seq<byte>, kind: nat) {
    (name == REGINFO && kind == REGINFO_KIND) || (name == ABIFLAGS && kind == ABIFLAGS_KIND) ||
    (name == ADDRSIG && kind == ADDRSIG_KIND)
  }

  lemma {:induction false} MarkedCounted(sections: seq<Section>, i: nat)
    requires i < |sections| && Marked(sections[i])
    ensures CountMarked(sections) > 0
  {
    if i > 0 {
      MarkedCounted(sections[1..], i - 1);
    }
  }

  lemma {:induction false} AllMatching(sections: seq<Section>, name: seq<byte>, kind: nat, i: nat)
    requires i < |sections| && Bears(sections[i], name, kind)
    ensures sections[i] in Matching(sections, name, kind)
  {
    if i > 0 {
      AllMatching(sections[1..], name, kind, i - 1);
    }
  }

  lemma {:induction false} MatchingTwice(sections: seq<Section>, name: seq<byte>, kind: nat, i: nat, j: nat)
    requires i < j < |sections| && Bears(sections[i], name, kind) && Bears(sections[j], name, kind)
    ensures |Matching(sections, name, kind)| >= 2
  {
    if i == 0 {
      AllMatching(sections[1..], name, kind, j - 1);
    } else {
      MatchingTwice(sections[1..], name, kind, i - 1, j - 1);
    }
  }

  lemma OneMatchOnly(sections: seq<Section>, name: seq<byte>, kind: nat, i: nat, j: nat)
    requires OneMatch(sections, name, kind) && i < |sections| && j < |sections|
    requires Bears(sections[i], name, kind) && Bears(sections[j], name, kind)
    ensures i == j && sections[i].name == name && sections[i].kind == kind
  {
    AllMatching(sections, name, kind, i);
    if i < j {
      MatchingTwice(sections, name, kind, i, j);
    } else if j < i {
      MatchingTwice(sections, name, kind, j, i);
    }
  }

  /** Off the route no section of an unrefused object is marked; on it, a section with one of the names or
      kinds is the only one with either, and has both. */
  lemma MetadataSections(obj: Relocatable, name: seq<byte>, kind: nat, i: nat, j: nat)
    requires WellFormed(obj) && MipsMetadata(obj) != Refused
    requires MetadataPair(name, kind)
    requires i < |obj.sections| && j < |obj.sections|
    requires Bears(obj.sections[i], name, kind) && Bears(obj.sections[j], name, kind)
    ensures OnRoute(obj) && MipsMetadata(obj) == Admitted
    ensures i == j && obj.sections[i].name == name && obj.sections[i].kind == kind
  {
    MarkedCounted(obj.sections, i);
    OneMatchOnly(obj.sections, name, kind, i, j);
  }

  lemma MatchIs(obj: Relocatable, name: seq<byte>, kind: nat, i: nat)
    requires OneMatch(obj.sections, name, kind) && i < |obj.sections| && Bears(obj.sections[i], name, kind)
    ensures Matching(obj.sections, name, kind)[0] == obj.sections[i]
  {
    AllMatching(obj.sections, name, kind, i);
  }

  /** The one route, by the four bytes of the header's e_flags. */
  lemma RouteRules(obj: Relocatable)
    requires WellFormed(obj)
    ensures OnRoute(obj) <==>
      obj.class_ == Elf32 && obj.little && obj.machine == 8 && obj.data[36..40] == [0x01, 0x10, 0x00, 0x70]
  {
    FieldIff(obj.data, true, 36, 4, 0x70001001);
    RouteDigits();
  }

  lemma RouteDigits()
    ensures Digits(0x70001001, 4, true) == [0x01, 0x10, 0x00, 0x70] && 0x70001001 < Pow256(4)
  {
    assert LittleDigits(0x70001001, 4) == [0x01] + LittleDigits(0x700010, 3);
    assert LittleDigits(0x700010, 3) == [0x10] + LittleDigits(0x7000, 2);
    assert LittleDigits(0x7000, 2) == [0x00] + LittleDigits(0x70, 1) && LittleDigits(0x70, 1) == [0x70];
    assert Pow256(4) == 256 * Pow256(3) && Pow256(3) == 256 * Pow256(2) && Pow256(2) == 0x10000;
  }

  /** In an admitted object the three sections hold what is expected of them. */
  lemma ReginfoRules(obj: Relocatable, i: nat)
    requires WellFormed(obj) && MipsMetadata(obj) == Admitted && i < |obj.sections|
    requires obj.sections[i].name == Ascii(".reginfo") || obj.sections[i].kind == 0x70000006
    ensures obj.sections[i].name == Ascii(".reginfo") && obj.sections[i].kind == 0x70000006
    ensures Shape(obj.sections[i], 2, 24, 0, 4, 24)
    ensures Holds(obj.data, obj.sections[i].offset,
                  [F(0x80000001, 4), F(0, 4), F(0, 4), F(0, 4), F(0, 4), F(0, 4)], true)
  {
    MatchIs(obj, REGINFO, REGINFO_KIND, i);
  }

  lemma AbiflagsRules(obj: Relocatable, i: nat)
    requires WellFormed(obj) && MipsMetadata(obj) == Admitted && i < |obj.sections|
    requires obj.sections[i].name == Ascii(".MIPS.abiflags") || obj.sections[i].kind == 0x7000002a
    ensures obj.sections[i].name == Ascii(".MIPS.abiflags") && obj.sections[i].kind == 0x7000002a
    ensures Shape(obj.sections[i], 2, 24, 0, 8, 24)
    ensures Holds(obj.data, obj.sections[i].offset,
                  [F(0, 2), F(32, 1), F(2, 1), F(1, 1), F(0, 1), F(0, 1), F(3, 1), F(0, 4), F(0, 4), F(1, 4), F(0, 4)], true)
  {
    MatchIs(obj, ABIFLAGS, ABIFLAGS_KIND, i);
  }

  lemma AddrsigRules(obj: Relocatable, i: nat)
    requires WellFormed(obj) && MipsMetadata(obj) == Admitted && i < |obj.sections|
    requires obj.sections[i].name == Ascii(".llvm_addrsig") || obj.sections[i].kind == 0x6fff4c03
    ensures obj.sections[i].name == Ascii(".llvm_addrsig") && obj.sections[i].kind == 0x6fff4c03
    ensures Shape(obj.sections[i], 0x80000000, 0, obj.symbolTable, 1, 0)
  {
    MatchIs(obj, ADDRSIG, ADDRSIG_KIND, i);
  }
}
