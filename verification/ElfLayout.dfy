/** The file format told by an encoder, in the field order of the System V ABI, chapter 4. */
module ElfLayout {
  import opened Common
  import opened ElfReader

  // ----- numbers as digits

  function Pow256(n: nat): nat {
    if n == 0 then 1 else 256 * Pow256(n - 1)
  }

  /** The n low base-256 digits of v, the lowest first. */
  function LittleDigits(v: nat, n: nat): (b: seq<byte>)
    ensures |b| == n
  {
    if n == 0 then [] else [v % 256] + LittleDigits(v / 256, n - 1)
  }

  /** The same digits, the highest first. */
  function BigDigits(v: nat, n: nat): (b: seq<byte>)
    ensures |b| == n
  {
    if n == 0 then [] else BigDigits(v / 256, n - 1) + [v % 256]
  }

  function Digits(v: nat, n: nat, little: bool): (b: seq<byte>)
    ensures |b| == n
  {
    if little then LittleDigits(v, n) else BigDigits(v, n)
  }

  lemma SplitDigit(v: nat, low: nat, high: nat)
    requires low < 256
    ensures v == low + 256 * high <==> v % 256 == low && v / 256 == high
  {}

  lemma {:induction false} LittleIff(data: seq<byte>, off: nat, n: nat, v: nat)
    requires off + n <= |data|
    ensures Field(data, true, off, n) == v <==> v < Pow256(n) && data[off..off + n] == LittleDigits(v, n)
    decreases n
  {
    if n > 0 {
      SplitDigit(v, data[off], Field(data, true, off + 1, n - 1));
      LittleIff(data, off + 1, n - 1, v / 256);
      assert data[off..off + n] == [data[off]] + data[off + 1..off + n];
      assert LittleDigits(v, n) == [v % 256] + LittleDigits(v / 256, n - 1);
      ConsIff(data[off], data[off + 1..off + n], v % 256, LittleDigits(v / 256, n - 1));
    }
  }

  lemma ConsIff(x: byte, a: seq<byte>, y: byte, b: seq<byte>)
    ensures [x] + a == [y] + b <==> x == y && a == b
    ensures a + [x] == b + [y] <==> x == y && a == b
  {
    assert ([x] + a)[1..] == a && ([y] + b)[1..] == b;
    assert |a| == |b| ==> (a + [x])[..|a|] == a && (b + [y])[..|a|] == b;
  }

  lemma {:induction false} BigIff(data: seq<byte>, off: nat, n: nat, v: nat)
    requires off + n <= |data|
    ensures Field(data, false, off, n) == v <==> v < Pow256(n) && data[off..off + n] == BigDigits(v, n)
    decreases n
  {
    if n > 0 {
      var last := off + n - 1;
      SplitDigit(v, data[last], Field(data, false, off, n - 1));
      BigIff(data, off, n - 1, v / 256);
      assert data[off..off + n] == data[off..last] + [data[last]];
      assert BigDigits(v, n) == BigDigits(v / 256, n - 1) + [v % 256];
      ConsIff(data[last], data[off..last], v % 256, BigDigits(v / 256, n - 1));
    }
  }

  /** A field reads as v exactly when its bytes are the digits of v. */
  lemma FieldIff(data: seq<byte>, little: bool, off: nat, n: nat, v: nat)
    requires off + n <= |data|
    ensures Field(data, little, off, n) == v <==> v < Pow256(n) && data[off..off + n] == Digits(v, n, little)
  {
    if little {
      LittleIff(data, off, n, v);
    } else {
      BigIff(data, off, n, v);
    }
  }

  // ----- records as the digits of their fields

  /** A field of a record and its width in bytes. */
  datatype Item = F(value: nat, width: nat)

  function Size(fs: seq<Item>): nat {
    if fs == [] then 0 else fs[0].width + Size(fs[1..])
  }

  function Encode(fs: seq<Item>, little: bool): (b: seq<byte>)
    ensures |b| == Size(fs)
  {
    if fs == [] then [] else Digits(fs[0].value, fs[0].width, little) + Encode(fs[1..], little)
  }

  predicate InRange(fs: seq<Item>) {
    forall i | 0 <= i < |fs| :: fs[i].value < Pow256(fs[i].width)
  }

  /** The record is encoded in the data at off. */
  predicate Holds(data: seq<byte>, off: nat, fs: seq<Item>, little: bool) {
    off + Size(fs) <= |data| && InRange(fs) && data[off..off + Size(fs)] == Encode(fs, little)
  }

  /** Reading it field by field gives its values. */
  predicate Reads(data: seq<byte>, off: nat, fs: seq<Item>, little: bool)
    requires off + Size(fs) <= |data|
    decreases fs
  {
    fs == [] ||
    (Field(data, little, off, fs[0].width) == fs[0].value && Reads(data, off + fs[0].width, fs[1..], little))
  }

  lemma SplitAt(data: seq<byte>, off: nat, a: seq<byte>, b: seq<byte>)
    requires off + |a| + |b| <= |data|
    ensures data[off..off + |a| + |b|] == a + b <==>
      data[off..off + |a|] == a && data[off + |a|..off + |a| + |b|] == b
  {
    var d := data[off..off + |a| + |b|];
    assert d[..|a|] == data[off..off + |a|] && d[|a|..] == data[off + |a|..off + |a| + |b|];
    assert d == d[..|a|] + d[|a|..] && (a + b)[..|a|] == a && (a + b)[|a|..] == b;
  }

  lemma InRangeCons(fs: seq<Item>)
    requires fs != []
    ensures InRange(fs) <==> fs[0].value < Pow256(fs[0].width) && InRange(fs[1..])
  {
    var rest := fs[1..];
    assert forall i | 0 <= i < |rest| :: rest[i] == fs[i + 1];
    assert forall i | 0 < i < |fs| :: fs[i] == rest[i - 1];
  }

  lemma EncodeCons(data: seq<byte>, off: nat, first: seq<byte>, rest: seq<byte>, all: seq<byte>, n: nat)
    requires all == first + rest && n == |all| && off + n <= |data|
    ensures data[off..off + n] == all <==>
      data[off..off + |first|] == first && data[off + |first|..off + |first| + |rest|] == rest
  {
    SplitAt(data, off, first, rest);
  }

  lemma HoldsCons(data: seq<byte>, off: nat, fs: seq<Item>, little: bool)
    requires fs != [] && off + Size(fs) <= |data|
    ensures var v, w := fs[0].value, fs[0].width;
      Holds(data, off, fs, little) <==>
        v < Pow256(w) && data[off..off + w] == Digits(v, w, little) && Holds(data, off + w, fs[1..], little)
  {
    InRangeCons(fs);
    EncodeCons(data, off, Digits(fs[0].value, fs[0].width, little), Encode(fs[1..], little), Encode(fs, little),
               Size(fs));
  }

  lemma {:induction false} ReadsIff(data: seq<byte>, off: nat, fs: seq<Item>, little: bool)
    requires off + Size(fs) <= |data|
    ensures Reads(data, off, fs, little) <==> Holds(data, off, fs, little)
    decreases fs
  {
    if fs == [] {
      assert data[off..off] == [];
    } else {
      FieldIff(data, little, off, fs[0].width, fs[0].value);
      ReadsIff(data, off + fs[0].width, fs[1..], little);
      HoldsCons(data, off, fs, little);
    }
  }

  // ----- the three records, in the order and widths of the ABI

  function HeaderFields(h: Header, c: Class): seq<Item> {
    var word := if c == Elf32 then 4 else 8;
    [F(h.kind, 2), F(h.machine, 2), F(h.version, 4), F(h.entry, word), F(h.phoff, word), F(h.shoff, word),
     F(h.flags, 4), F(h.ehsize, 2), F(h.phentsize, 2), F(h.phnum, 2), F(h.shentsize, 2), F(h.shnum, 2), F(h.shstr, 2)]
  }

  function RowFields(r: Row, c: Class): seq<Item> {
    var word := if c == Elf32 then 4 else 8;
    [F(r.name, 4), F(r.kind, 4), F(r.flags, word), F(r.address, word), F(r.offset, word), F(r.size, word),
     F(r.link, 4), F(r.info, 4), F(r.alignment, word), F(r.entrySize, word)]
  }

  function EntryFields(e: Entry, c: Class): seq<Item> {
    if c == Elf32 then
      [F(e.name, 4), F(e.value, 4), F(e.size, 4), F(e.info, 1), F(e.other, 1), F(e.section, 2)]
    else
      [F(e.name, 4), F(e.info, 1), F(e.other, 1), F(e.section, 2), F(e.value, 8), F(e.size, 8)]
  }

  /** Where field i starts. */
  function Offset(fs: seq<Item>, i: nat): nat
    requires i <= |fs|
  {
    if i == 0 then 0 else Offset(fs, i - 1) + fs[i - 1].width
  }

  lemma {:induction false} OffsetTail(fs: seq<Item>, i: nat)
    requires 0 < i <= |fs|
    ensures Offset(fs, i) == fs[0].width + Offset(fs[1..], i - 1)
  {
    if i > 1 {
      OffsetTail(fs, i - 1);
    }
  }

  lemma {:induction false} OffsetInside(fs: seq<Item>, i: nat)
    requires i <= |fs|
    ensures Offset(fs, i) <= Size(fs) && (i < |fs| ==> Offset(fs, i) + fs[i].width <= Size(fs))
    ensures i == |fs| ==> Offset(fs, i) == Size(fs)
    decreases fs
  {
    if i > 0 {
      OffsetTail(fs, i);
      OffsetInside(fs[1..], i - 1);
    }
  }

  /** Field i of the record, if it fits the data, reads as its value. */
  predicate ReadsField(data: seq<byte>, off: nat, fs: seq<Item>, little: bool, i: nat)
    requires i < |fs|
  {
    var at := off + Offset(fs, i);
    at + fs[i].width <= |data| && Field(data, little, at, fs[i].width) == fs[i].value
  }

  lemma {:induction false} ReadsFields(data: seq<byte>, off: nat, fs: seq<Item>, little: bool)
    requires off + Size(fs) <= |data|
    ensures Reads(data, off, fs, little) <==> forall i | 0 <= i < |fs| :: ReadsField(data, off, fs, little, i)
    decreases fs
  {
    if fs != [] {
      var rest, next := fs[1..], off + fs[0].width;
      ReadsFields(data, next, rest, little);
      forall i | 0 <= i < |rest|
        ensures ReadsField(data, next, rest, little, i) <==> ReadsField(data, off, fs, little, i + 1)
      {
        OffsetTail(fs, i + 1);
      }
      assert ReadsField(data, off, fs, little, 0) <==> Field(data, little, off, fs[0].width) == fs[0].value;
      if forall i | 0 <= i < |rest| :: ReadsField(data, next, rest, little, i) {
        forall i | 0 < i < |fs| ensures ReadsField(data, off, fs, little, i) {
          assert ReadsField(data, next, rest, little, i - 1);
        }
      }
    }
  }

  /** A record is encoded exactly when every one of its fields reads as its value. */
  lemma HoldsFields(data: seq<byte>, off: nat, fs: seq<Item>, little: bool)
    requires off + Size(fs) <= |data|
    ensures Holds(data, off, fs, little) <==> forall i | 0 <= i < |fs| :: ReadsField(data, off, fs, little, i)
  {
    ReadsIff(data, off, fs, little);
    ReadsFields(data, off, fs, little);
  }

  /** The distances of the fields from the start of the record. */
  predicate Distances(o: seq<nat>, fs: seq<Item>) {
    |o| == |fs| && (o != [] ==> o[0] == 0) && forall i | 0 < i < |o| :: o[i] == o[i - 1] + fs[i - 1].width
  }

  lemma {:induction false} DistanceIs(o: seq<nat>, fs: seq<Item>, i: nat)
    requires Distances(o, fs) && i < |fs|
    ensures Offset(fs, i) == o[i]
  {
    if i > 0 {
      DistanceIs(o, fs, i - 1);
    }
  }

  predicate FieldIs(data: seq<byte>, little: bool, at: nat, f: Item) {
    at + f.width <= |data| && Field(data, little, at, f.width) == f.value
  }

  lemma HoldsAt(data: seq<byte>, off: nat, fs: seq<Item>, little: bool, o: seq<nat>)
    requires Distances(o, fs) && fs != [] && off + o[|o| - 1] + fs[|fs| - 1].width <= |data|
    ensures Holds(data, off, fs, little) <==> forall i | 0 <= i < |fs| :: FieldIs(data, little, off + o[i], fs[i])
  {
    var n := |fs|;
    DistanceIs(o, fs, n - 1);
    OffsetInside(fs, n);
    HoldsFields(data, off, fs, little);
    forall i | 0 <= i < n ensures ReadsField(data, off, fs, little, i) <==> FieldIs(data, little, off + o[i], fs[i]) {
      DistanceIs(o, fs, i);
    }
  }

  lemma AllSix(data: seq<byte>, off: nat, fs: seq<Item>, little: bool, o: seq<nat>)
    requires |fs| == |o| == 6
    ensures (forall i | 0 <= i < |fs| :: FieldIs(data, little, off + o[i], fs[i])) <==>
      FieldIs(data, little, off + o[0], fs[0]) &&
      FieldIs(data, little, off + o[1], fs[1]) &&
      FieldIs(data, little, off + o[2], fs[2]) &&
      FieldIs(data, little, off + o[3], fs[3]) &&
      FieldIs(data, little, off + o[4], fs[4]) &&
      FieldIs(data, little, off + o[5], fs[5])
  {}

  lemma AllTen(data: seq<byte>, off: nat, fs: seq<Item>, little: bool, o: seq<nat>)
    requires |fs| == |o| == 10
    ensures (forall i | 0 <= i < |fs| :: FieldIs(data, little, off + o[i], fs[i])) <==>
      FieldIs(data, little, off + o[0], fs[0]) &&
      FieldIs(data, little, off + o[1], fs[1]) &&
      FieldIs(data, little, off + o[2], fs[2]) &&
      FieldIs(data, little, off + o[3], fs[3]) &&
      FieldIs(data, little, off + o[4], fs[4]) &&
      FieldIs(data, little, off + o[5], fs[5]) &&
      FieldIs(data, little, off + o[6], fs[6]) &&
      FieldIs(data, little, off + o[7], fs[7]) &&
      FieldIs(data, little, off + o[8], fs[8]) &&
      FieldIs(data, little, off + o[9], fs[9])
  {}

  lemma AllThirteen(data: seq<byte>, off: nat, fs: seq<Item>, little: bool, o: seq<nat>)
    requires |fs| == |o| == 13
    ensures (forall i | 0 <= i < |fs| :: FieldIs(data, little, off + o[i], fs[i])) <==>
      FieldIs(data, little, off + o[0], fs[0]) &&
      FieldIs(data, little, off + o[1], fs[1]) &&
      FieldIs(data, little, off + o[2], fs[2]) &&
      FieldIs(data, little, off + o[3], fs[3]) &&
      FieldIs(data, little, off + o[4], fs[4]) &&
      FieldIs(data, little, off + o[5], fs[5]) &&
      FieldIs(data, little, off + o[6], fs[6]) &&
      FieldIs(data, little, off + o[7], fs[7]) &&
      FieldIs(data, little, off + o[8], fs[8]) &&
      FieldIs(data, little, off + o[9], fs[9]) &&
      FieldIs(data, little, off + o[10], fs[10]) &&
      FieldIs(data, little, off + o[11], fs[11]) &&
      FieldIs(data, little, off + o[12], fs[12])
  {}

  lemma EntryRead32(data: seq<byte>, little: bool, off: nat, e: Entry, fs: seq<Item>, o: seq<nat>)
    requires off + 16 <= |data| && |fs| == |o| == 6
    requires fs[0] == F(e.name, 4) && fs[1] == F(e.value, 4) && fs[2] == F(e.size, 4) && fs[3] == F(e.info, 1) &&
      fs[4] == F(e.other, 1) && fs[5] == F(e.section, 2)
    requires o[0] == 0 && o[1] == 4 && o[2] == 8 && o[3] == 12 && o[4] == 13 && o[5] == 14
    ensures Holds(data, off, fs, little) <==> ReadEntry(data, Elf32, little, off) == e
  {
    HoldsAt(data, off, fs, little, o);
    AllSix(data, off, fs, little, o);
  }

  lemma EntryEncoded32(data: seq<byte>, little: bool, off: nat, e: Entry)
    requires off + 16 <= |data|
    ensures Holds(data, off, EntryFields(e, Elf32), little) <==> ReadEntry(data, Elf32, little, off) == e
  {
    EntryRead32(data, little, off, e, EntryFields(e, Elf32), [0, 4, 8, 12, 13, 14]);
  }

  lemma EntryRead64(data: seq<byte>, little: bool, off: nat, e: Entry, fs: seq<Item>, o: seq<nat>)
    requires off + 24 <= |data| && |fs| == |o| == 6
    requires fs[0] == F(e.name, 4) && fs[1] == F(e.info, 1) && fs[2] == F(e.other, 1) && fs[3] == F(e.section, 2) &&
      fs[4] == F(e.value, 8) && fs[5] == F(e.size, 8)
    requires o[0] == 0 && o[1] == 4 && o[2] == 5 && o[3] == 6 && o[4] == 8 && o[5] == 16
    ensures Holds(data, off, fs, little) <==> ReadEntry(data, Elf64, little, off) == e
  {
    HoldsAt(data, off, fs, little, o);
    AllSix(data, off, fs, little, o);
  }

  lemma EntryEncoded64(data: seq<byte>, little: bool, off: nat, e: Entry)
    requires off + 24 <= |data|
    ensures Holds(data, off, EntryFields(e, Elf64), little) <==> ReadEntry(data, Elf64, little, off) == e
  {
    EntryRead64(data, little, off, e, EntryFields(e, Elf64), [0, 4, 5, 6, 8, 16]);
  }

  lemma RowRead32(data: seq<byte>, little: bool, off: nat, r: Row, fs: seq<Item>, o: seq<nat>)
    requires off + 40 <= |data| && |fs| == |o| == 10
    requires fs[0] == F(r.name, 4) && fs[1] == F(r.kind, 4) && fs[2] == F(r.flags, 4) && fs[3] == F(r.address, 4) &&
      fs[4] == F(r.offset, 4) && fs[5] == F(r.size, 4) && fs[6] == F(r.link, 4) && fs[7] == F(r.info, 4) &&
      fs[8] == F(r.alignment, 4) && fs[9] == F(r.entrySize, 4)
    requires o[0] == 0 && o[1] == 4 && o[2] == 8 && o[3] == 12 && o[4] == 16 && o[5] == 20 && o[6] == 24 && o[7] == 28 &&
      o[8] == 32 && o[9] == 36
    ensures Holds(data, off, fs, little) <==> ReadRow(data, Elf32, little, off) == r
  {
    HoldsAt(data, off, fs, little, o);
    AllTen(data, off, fs, little, o);
  }

  lemma RowEncoded32(data: seq<byte>, little: bool, off: nat, r: Row)
    requires off + 40 <= |data|
    ensures Holds(data, off, RowFields(r, Elf32), little) <==> ReadRow(data, Elf32, little, off) == r
  {
    RowRead32(data, little, off, r, RowFields(r, Elf32), [0, 4, 8, 12, 16, 20, 24, 28, 32, 36]);
  }

  lemma RowRead64(data: seq<byte>, little: bool, off: nat, r: Row, fs: seq<Item>, o: seq<nat>)
    requires off + 64 <= |data| && |fs| == |o| == 10
    requires fs[0] == F(r.name, 4) && fs[1] == F(r.kind, 4) && fs[2] == F(r.flags, 8) && fs[3] == F(r.address, 8) &&
      fs[4] == F(r.offset, 8) && fs[5] == F(r.size, 8) && fs[6] == F(r.link, 4) && fs[7] == F(r.info, 4) &&
      fs[8] == F(r.alignment, 8) && fs[9] == F(r.entrySize, 8)
    requires o[0] == 0 && o[1] == 4 && o[2] == 8 && o[3] == 16 && o[4] == 24 && o[5] == 32 && o[6] == 40 && o[7] == 44 &&
      o[8] == 48 && o[9] == 56
    ensures Holds(data, off, fs, little) <==> ReadRow(data, Elf64, little, off) == r
  {
    HoldsAt(data, off, fs, little, o);
    AllTen(data, off, fs, little, o);
  }

  lemma RowEncoded64(data: seq<byte>, little: bool, off: nat, r: Row)
    requires off + 64 <= |data|
    ensures Holds(data, off, RowFields(r, Elf64), little) <==> ReadRow(data, Elf64, little, off) == r
  {
    RowRead64(data, little, off, r, RowFields(r, Elf64), [0, 4, 8, 16, 24, 32, 40, 44, 48, 56]);
  }

  lemma HeaderRead32(data: seq<byte>, little: bool, h: Header, fs: seq<Item>, o: seq<nat>)
    requires 52 <= |data| && |fs| == |o| == 13
    requires fs[0] == F(h.kind, 2) && fs[1] == F(h.machine, 2) && fs[2] == F(h.version, 4) && fs[3] == F(h.entry, 4) &&
      fs[4] == F(h.phoff, 4) && fs[5] == F(h.shoff, 4) && fs[6] == F(h.flags, 4) && fs[7] == F(h.ehsize, 2) &&
      fs[8] == F(h.phentsize, 2) && fs[9] == F(h.phnum, 2) && fs[10] == F(h.shentsize, 2) &&
      fs[11] == F(h.shnum, 2) && fs[12] == F(h.shstr, 2)
    requires o[0] == 0 && o[1] == 2 && o[2] == 4 && o[3] == 8 && o[4] == 12 && o[5] == 16 && o[6] == 20 && o[7] == 24 &&
      o[8] == 26 && o[9] == 28 && o[10] == 30 && o[11] == 32 && o[12] == 34
    ensures Holds(data, 16, fs, little) <==> ReadHeader(data, Elf32, little) == h
  {
    HoldsAt(data, 16, fs, little, o);
    AllThirteen(data, 16, fs, little, o);
  }

  lemma HeaderEncoded32(data: seq<byte>, little: bool, h: Header)
    requires 52 <= |data|
    ensures Holds(data, 16, HeaderFields(h, Elf32), little) <==> ReadHeader(data, Elf32, little) == h
  {
    HeaderRead32(data, little, h, HeaderFields(h, Elf32), [0, 2, 4, 8, 12, 16, 20, 24, 26, 28, 30, 32, 34]);
  }

  lemma HeaderRead64(data: seq<byte>, little: bool, h: Header, fs: seq<Item>, o: seq<nat>)
    requires 64 <= |data| && |fs| == |o| == 13
    requires fs[0] == F(h.kind, 2) && fs[1] == F(h.machine, 2) && fs[2] == F(h.version, 4) && fs[3] == F(h.entry, 8) &&
      fs[4] == F(h.phoff, 8) && fs[5] == F(h.shoff, 8) && fs[6] == F(h.flags, 4) && fs[7] == F(h.ehsize, 2) &&
      fs[8] == F(h.phentsize, 2) && fs[9] == F(h.phnum, 2) && fs[10] == F(h.shentsize, 2) &&
      fs[11] == F(h.shnum, 2) && fs[12] == F(h.shstr, 2)
    requires o[0] == 0 && o[1] == 2 && o[2] == 4 && o[3] == 8 && o[4] == 16 && o[5] == 24 && o[6] == 32 && o[7] == 36 &&
      o[8] == 38 && o[9] == 40 && o[10] == 42 && o[11] == 44 && o[12] == 46
    ensures Holds(data, 16, fs, little) <==> ReadHeader(data, Elf64, little) == h
  {
    HoldsAt(data, 16, fs, little, o);
    AllThirteen(data, 16, fs, little, o);
  }

  lemma HeaderEncoded64(data: seq<byte>, little: bool, h: Header)
    requires 64 <= |data|
    ensures Holds(data, 16, HeaderFields(h, Elf64), little) <==> ReadHeader(data, Elf64, little) == h
  {
    HeaderRead64(data, little, h, HeaderFields(h, Elf64), [0, 2, 4, 8, 16, 24, 32, 36, 38, 40, 42, 44, 46]);
  }

  lemma RowEncoded(data: seq<byte>, c: Class, little: bool, off: nat, r: Row)
    requires off + SectionSize(c) <= |data|
    ensures Holds(data, off, RowFields(r, c), little) <==> ReadRow(data, c, little, off) == r
  {
    if c == Elf32 {
      RowEncoded32(data, little, off, r);
    } else {
      RowEncoded64(data, little, off, r);
    }
  }

  lemma EntryEncoded(data: seq<byte>, c: Class, little: bool, off: nat, e: Entry)
    requires off + SymbolSize(c) <= |data|
    ensures Holds(data, off, EntryFields(e, c), little) <==> ReadEntry(data, c, little, off) == e
  {
    if c == Elf32 {
      EntryEncoded32(data, little, off, e);
    } else {
      EntryEncoded64(data, little, off, e);
    }
  }

  lemma HeaderEncoded(data: seq<byte>, c: Class, little: bool, h: Header)
    requires HeaderSize(c) <= |data|
    ensures Holds(data, 16, HeaderFields(h, c), little) <==> ReadHeader(data, c, little) == h
  {
    if c == Elf32 {
      HeaderEncoded32(data, little, h);
    } else {
      HeaderEncoded64(data, little, h);
    }
  }

  // ----- a whole file

  /** What a file says beside the object: the header's flags, which section holds the section names, and
      where the names are in their tables. */
  datatype Layout = Layout(flags: nat, names: nat, sectionNames: seq<nat>, symbolNames: seq<nat>)

  function Pow2(e: nat): nat {
    if e == 0 then 1 else 2 * Pow2(e - 1)
  }

  ghost predicate IsPow2(n: nat) {
    exists e: nat :: n == Pow2(e)
  }

  /** The name stands at off in the table, and a NUL behind it. */
  predicate NamedAt(table: seq<byte>, off: nat, name: seq<byte>) {
    off + |name| < |table| && table[off..off + |name|] == name && table[off + |name|] == 0 && 0 !in name
  }

  function RowOf(s: Section, name: nat): Row {
    Row(name, s.kind, s.flags, s.address, s.offset, s.size, s.link, s.info, s.alignment, s.entrySize)
  }

  function EntryOf(s: Symbol, name: nat): Entry {
    Entry(name, s.value, s.size, s.info, s.other, s.section)
  }

  /** The identification, and the header of a relocatable file of the current version without an entry
      point or program headers. */
  predicate HeaderLaidOut(data: seq<byte>, c: Class, little: bool, obj: Relocatable, l: Layout) {
    var size, rowSize, n := if c == Elf32 then 52 else 64, if c == Elf32 then 40 else 64, |obj.sections|;
    |data| >= size &&
    data[..7] == [0x7f, 0x45, 0x4c, 0x46, if c == Elf32 then 1 else 2, if little then 1 else 2, 1] &&
    Holds(data, 16,
          HeaderFields(Header(1, obj.machine, 1, 0, 0, obj.sectionOffset, l.flags, size, 0, 0, rowSize, n, l.names), c),
          little) &&
    2 <= n < 0xff00 && 0 < l.names < n && size <= obj.sectionOffset && obj.sectionOffset + n * rowSize <= |data|
  }

  ghost predicate SectionInside(s: Section, n: nat, len: nat) {
    s.offset <= len && (s.kind == 8 || s.offset + s.size <= len) && s.link < n &&
    (s.alignment == 0 || IsPow2(s.alignment))
  }

  /** Row i of the section table, at its place; the first one is null and the others bounded. */
  ghost predicate RowLaidOut(data: seq<byte>, c: Class, little: bool, obj: Relocatable, l: Layout, i: nat)
    requires i < |obj.sections| == |l.sectionNames|
  {
    var row := RowOf(obj.sections[i], l.sectionNames[i]);
    Holds(data, obj.sectionOffset + i * (if c == Elf32 then 40 else 64), RowFields(row, c), little) &&
    if i == 0 then row == Row(0, 0, 0, 0, 0, 0, 0, 0, 0, 0) else SectionInside(obj.sections[i], |obj.sections|, |data|)
  }

  ghost predicate RowsLaidOut(data: seq<byte>, c: Class, little: bool, obj: Relocatable, l: Layout) {
    |l.sectionNames| == |obj.sections| > 0 &&
    forall i | 0 <= i < |obj.sections| :: RowLaidOut(data, c, little, obj, l, i)
  }

  /** A string table in the file that starts with NUL. */
  predicate StringsLaidOut(data: seq<byte>, s: Section) {
    s.kind == 3 && 0 < s.size && s.offset + s.size <= |data| && data[s.offset] == 0
  }

  predicate NamesLaidOut(data: seq<byte>, obj: Relocatable, l: Layout) {
    l.names < |obj.sections| == |l.sectionNames| &&
    var t := obj.sections[l.names];
    StringsLaidOut(data, t) &&
    forall i | 0 <= i < |obj.sections| ::
      NamedAt(data[t.offset..t.offset + t.size], l.sectionNames[i], obj.sections[i].name)
  }

  /** Entry j of a symbol table, at its place, and its name. */
  predicate SymbolLaidOut(data: seq<byte>, c: Class, little: bool, offset: nat, strings: seq<byte>, s: Symbol,
                          name: nat, j: nat)
  {
    Holds(data, offset + j * (if c == Elf32 then 16 else 24), EntryFields(EntryOf(s, name), c), little) &&
    NamedAt(strings, name, s.name)
  }

  predicate EntriesLaidOut(data: seq<byte>, c: Class, little: bool, offset: nat, strings: seq<byte>,
                           symbols: seq<Symbol>, names: seq<nat>)
  {
    |names| == |symbols| &&
    forall j | 0 <= j < |symbols| :: SymbolLaidOut(data, c, little, offset, strings, symbols[j], names[j], j)
  }

  /** The only symbol table: as many entries as there are symbols, and a table for their names. */
  predicate TableLaidOut(data: seq<byte>, c: Class, obj: Relocatable) {
    var n, k, size := |obj.sections|, obj.symbolTable, if c == Elf32 then 16 else 24;
    k < n && (forall i | 0 <= i < n :: obj.sections[i].kind == 2 <==> i == k) &&
    var t := obj.sections[k];
    t.entrySize == size && t.size == |obj.symbols| * size > 0 && t.offset + t.size <= |data| && 0 < t.link < n &&
    StringsLaidOut(data, obj.sections[t.link])
  }

  predicate SymbolsLaidOut(data: seq<byte>, c: Class, little: bool, obj: Relocatable, l: Layout) {
    TableLaidOut(data, c, obj) &&
    var t := obj.sections[obj.symbolTable];
    var s := obj.sections[t.link];
    EntriesLaidOut(data, c, little, t.offset, data[s.offset..s.offset + s.size], obj.symbols, l.symbolNames)
  }

  /** The data is the file of this object. */
  ghost predicate LaidOut(data: seq<byte>, c: Class, little: bool, obj: Relocatable, l: Layout) {
    obj.data == data && obj.class_ == c && obj.little == little &&
    HeaderLaidOut(data, c, little, obj, l) && RowsLaidOut(data, c, little, obj, l) &&
    NamesLaidOut(data, obj, l) && SymbolsLaidOut(data, c, little, obj, l)
  }

  // ----- the reader accepts exactly the laid-out files

  lemma NamedAtIff(table: seq<byte>, off: nat, name: seq<byte>)
    ensures NamedAt(table, off, name) <==> TableString(table, off) == Some(name)
  {
    NameIsTerminated(table, off);
    if NamedAt(table, off, name) {
      var k := off + |name|;
      NulAt(table, off, k);
    }
  }

  lemma {:induction false} NulAt(table: seq<byte>, off: nat, k: nat)
    requires off <= k < |table| && 0 !in table[off..k] && table[k] == 0
    ensures NulFrom(table, off) == k
    decreases k - off
  {
    if off < k {
      assert table[off] in table[off..k];
      assert table[off..k][1..] == table[off + 1..k];
      NulAt(table, off + 1, k);
    }
  }

  lemma {:induction false} PowerOfTwoIff(n: nat)
    ensures PowerOfTwo(n) <==> IsPow2(n)
  {
    if PowerOfTwo(n) {
      if n == 1 {
        assert n == Pow2(0);
      } else {
        PowerOfTwoIff(n / 2);
        var e: nat :| n / 2 == Pow2(e);
        assert n == Pow2(e + 1);
      }
    }
    forall e: nat | n == Pow2(e) ensures PowerOfTwo(n) {
      Pow2Is(e);
    }
  }

  lemma {:induction false} Pow2Is(e: nat)
    ensures PowerOfTwo(Pow2(e))
  {
    if e > 0 {
      Pow2Is(e - 1);
    }
  }

  lemma RowInsideIff(s: Section, name: nat, n: nat, len: nat)
    ensures SectionInside(s, n, len) <==> RowOk(RowOf(s, name), n, len)
  {
    PowerOfTwoIff(s.alignment);
  }

  /** The header of a laid-out file is read as it was laid out. */
  lemma HeaderRead(data: seq<byte>, c: Class, little: bool, obj: Relocatable, l: Layout)
    requires HeaderLaidOut(data, c, little, obj, l)
    ensures HeaderReadable(data, c, little)
    ensures var h := ReadHeader(data, c, little);
      h.machine == obj.machine && h.shoff == obj.sectionOffset && h.shnum == |obj.sections| && h.shstr == l.names
  {
    HeaderEncoded(data, c, little,
      Header(1, obj.machine, 1, 0, 0, obj.sectionOffset, l.flags, HeaderSize(c), 0, 0, SectionSize(c), |obj.sections|,
             l.names));
  }

  lemma RowRead(data: seq<byte>, c: Class, little: bool, obj: Relocatable, l: Layout, i: nat)
    requires i < |obj.sections| == |l.sectionNames|
    requires obj.sectionOffset + |obj.sections| * SectionSize(c) <= |data|
    ensures var row := RowOf(obj.sections[i], l.sectionNames[i]);
      RowLaidOut(data, c, little, obj, l, i) <==>
        RowAt(data, c, little, obj.sectionOffset, |obj.sections|, i) == row &&
        if i == 0 then row == NULL_ROW else RowOk(row, |obj.sections|, |data|)
  {
    var row := RowOf(obj.sections[i], l.sectionNames[i]);
    RowInside(c, obj.sectionOffset, |obj.sections|, |data|, i);
    RowEncoded(data, c, little, obj.sectionOffset + i * SectionSize(c), row);
    RowInsideIff(obj.sections[i], l.sectionNames[i], |obj.sections|, |data|);
  }

  /** So is every row of the section table. */
  lemma RowsRead(data: seq<byte>, c: Class, little: bool, obj: Relocatable, l: Layout)
    requires RowsLaidOut(data, c, little, obj, l)
    requires obj.sectionOffset + |obj.sections| * SectionSize(c) <= |data|
    ensures var rows := Rows(data, c, little, obj.sectionOffset, |obj.sections|);
      RowsOk(rows, |data|) && forall i | 0 <= i < |rows| :: rows[i] == RowOf(obj.sections[i], l.sectionNames[i])
  {
    var n := |obj.sections|;
    var rows := Rows(data, c, little, obj.sectionOffset, n);
    forall i | 0 <= i < n
      ensures rows[i] == RowOf(obj.sections[i], l.sectionNames[i])
      ensures if i == 0 then rows[i] == NULL_ROW else RowOk(rows[i], n, |data|)
    {
      assert RowLaidOut(data, c, little, obj, l, i);
      RowRead(data, c, little, obj, l, i);
    }
  }

  /** So are the section names, which makes the sections. */
  lemma NamesRead(data: seq<byte>, rows: seq<Row>, obj: Relocatable, l: Layout)
    requires NamesLaidOut(data, obj, l) && |rows| == |obj.sections|
    requires forall i | 0 <= i < |rows| :: rows[i] == RowOf(obj.sections[i], l.sectionNames[i])
    ensures StringTable(data, rows, l.names) && Named(rows, SectionData(data, rows[l.names]))
    ensures SectionsOf(rows, SectionData(data, rows[l.names])) == obj.sections
  {
    var names := SectionData(data, rows[l.names]);
    forall i | 0 <= i < |rows| ensures TableString(names, rows[i].name) == Some(obj.sections[i].name) {
      NamedAtIff(names, l.sectionNames[i], obj.sections[i].name);
    }
    assert SectionsOf(rows, names) == obj.sections;
  }

  lemma SymbolRead(data: seq<byte>, c: Class, little: bool, t: Row, strings: seq<byte>, s: Symbol, name: nat, j: nat)
    requires t.offset + t.size <= |data| && j < t.size / SymbolSize(c)
    ensures SymbolLaidOut(data, c, little, t.offset, strings, s, name, j) <==>
      EntryAt(data, c, little, t, j) == EntryOf(s, name) && TableString(strings, name) == Some(s.name)
  {
    assert j * SymbolSize(c) + SymbolSize(c) <= t.size;
    EntryEncoded(data, c, little, t.offset + j * SymbolSize(c), EntryOf(s, name));
    NamedAtIff(strings, name, s.name);
  }

  /** And the symbols. */
  lemma SymbolsRead(data: seq<byte>, c: Class, little: bool, t: Row, strings: seq<byte>,
                    symbols: seq<Symbol>, names: seq<nat>)
    requires t.offset + t.size <= |data| && |symbols| == t.size / SymbolSize(c)
    requires EntriesLaidOut(data, c, little, t.offset, strings, symbols, names)
    ensures SymbolsNamed(data, c, little, t, strings) && SymbolsOf(data, c, little, t, strings) == symbols
  {
    forall j | 0 <= j < |symbols|
      ensures EntryAt(data, c, little, t, j) == EntryOf(symbols[j], names[j])
      ensures TableString(strings, names[j]) == Some(symbols[j].name)
    {
      SymbolRead(data, c, little, t, strings, symbols[j], names[j], j);
    }
    assert SymbolsOf(data, c, little, t, strings) == symbols;
  }

  /** The symbol table's section is laid out exactly when its row is acceptable. */
  lemma TableRead(data: seq<byte>, c: Class, rows: seq<Row>, obj: Relocatable, names: seq<nat>)
    requires |rows| == |obj.sections| == |names| && RowsOk(rows, |data|) && obj.symbolTable < |rows|
    requires forall i | 0 <= i < |rows| :: rows[i] == RowOf(obj.sections[i], names[i])
    ensures var k, t := obj.symbolTable, rows[obj.symbolTable];
      TableLaidOut(data, c, obj) <==>
        OnlySymbolTable(rows, k) && SymbolTableOk(rows, k, c) && StringTable(data, rows, t.link) &&
        |obj.symbols| == t.size / SymbolSize(c)
  {
    var t := rows[obj.symbolTable];
    TableCount(t.size, SymbolSize(c), |obj.symbols|);
    assert OnlySymbolTable(rows, obj.symbolTable) ==> RowOk(t, |rows|, |data|);
    assert t.link < |rows| ==> rows[t.link] == RowOf(obj.sections[t.link], names[t.link]);
  }

  lemma StringsRead(data: seq<byte>, s: Section, name: nat, strings: seq<byte>)
    requires s.offset + s.size <= |data| && strings == data[s.offset..s.offset + s.size]
    ensures SectionData(data, RowOf(s, name)) == strings
  {}

  lemma SymbolTableRead(data: seq<byte>, c: Class, little: bool, rows: seq<Row>, obj: Relocatable, l: Layout)
    requires SymbolsLaidOut(data, c, little, obj, l) && |rows| == |obj.sections| == |l.sectionNames|
    requires RowsOk(rows, |data|)
    requires forall i | 0 <= i < |rows| :: rows[i] == RowOf(obj.sections[i], l.sectionNames[i])
    ensures SymbolsReadable(data, c, little, rows, obj.symbolTable)
    ensures var t := rows[obj.symbolTable];
      SymbolsOf(data, c, little, t, SectionData(data, rows[t.link])) == obj.symbols
  {
    var t, table := rows[obj.symbolTable], obj.sections[obj.symbolTable];
    var s := obj.sections[table.link];
    var strings := data[s.offset..s.offset + s.size];
    SymbolsJoin(data, c, little, obj, l, table.offset, strings);
    TableRead(data, c, rows, obj, l.sectionNames);
    StringsRead(data, s, l.sectionNames[table.link], strings);
    EntriesRead(data, c, little, t, strings, obj, l, table.offset);
  }

  lemma EntriesRead(data: seq<byte>, c: Class, little: bool, t: Row, strings: seq<byte>, obj: Relocatable,
    l: Layout, offset: nat)
    requires t.offset == offset && offset + t.size <= |data| && |obj.symbols| == t.size / SymbolSize(c)
    requires EntriesLaidOut(data, c, little, offset, strings, obj.symbols, l.symbolNames)
    ensures SymbolsNamed(data, c, little, t, strings) && SymbolsOf(data, c, little, t, strings) == obj.symbols
  {
    SymbolsRead(data, c, little, t, strings, obj.symbols, l.symbolNames);
  }

  lemma TableCount(size: nat, step: nat, n: nat)
    requires step == 16 || step == 24
    ensures size == n * step <==> size / step == n && size % step == 0
  {}

  /** A laid-out file is accepted, and the object read is the one laid out. */
  lemma LaidOutIsRead(data: seq<byte>, c: Class, little: bool, obj: Relocatable, l: Layout)
    requires LaidOut(data, c, little, obj, l)
    ensures Accepts(data, c, little, obj.symbolTable) && Object(data, c, little, obj.symbolTable) == obj
  {
    HeaderRead(data, c, little, obj, l);
    RowsRead(data, c, little, obj, l);
    var rows := Rows(data, c, little, obj.sectionOffset, |obj.sections|);
    NamesRead(data, rows, obj, l);
    SymbolTableRead(data, c, little, rows, obj, l);
  }

  // ----- and every accepted file is laid out

  function RowNames(rows: seq<Row>): (names: seq<nat>)
    ensures |names| == |rows| && forall i | 0 <= i < |rows| :: names[i] == rows[i].name
  {
    seq(|rows|, i requires 0 <= i < |rows| => rows[i].name)
  }

  function EntryNames(data: seq<byte>, c: Class, little: bool, t: Row): (names: seq<nat>)
    requires t.offset + t.size <= |data|
    ensures |names| == t.size / SymbolSize(c)
    ensures forall j | 0 <= j < |names| :: names[j] == EntryAt(data, c, little, t, j).name
  {
    seq(t.size / SymbolSize(c), j requires 0 <= j < t.size / SymbolSize(c) => EntryAt(data, c, little, t, j).name)
  }

  lemma HeaderWritten(data: seq<byte>, c: Class, little: bool, obj: Relocatable, l: Layout)
    requires HeaderReadable(data, c, little)
    requires var h := ReadHeader(data, c, little);
      h.machine == obj.machine && h.shoff == obj.sectionOffset && h.shnum == |obj.sections| && h.shstr == l.names &&
      h.flags == l.flags
    ensures HeaderLaidOut(data, c, little, obj, l)
  {
    HeaderEncoded(data, c, little,
      Header(1, obj.machine, 1, 0, 0, obj.sectionOffset, l.flags, HeaderSize(c), 0, 0, SectionSize(c), |obj.sections|,
             l.names));
  }

  lemma RowsWritten(data: seq<byte>, c: Class, little: bool, rows: seq<Row>, obj: Relocatable, l: Layout)
    requires |rows| == |obj.sections| == |l.sectionNames|
    requires obj.sectionOffset + |rows| * SectionSize(c) <= |data|
    requires rows == Rows(data, c, little, obj.sectionOffset, |rows|) && RowsOk(rows, |data|)
    requires forall i | 0 <= i < |rows| :: rows[i] == RowOf(obj.sections[i], l.sectionNames[i])
    ensures RowsLaidOut(data, c, little, obj, l)
  {
    forall i | 0 <= i < |rows| ensures RowLaidOut(data, c, little, obj, l, i) {
      RowRead(data, c, little, obj, l, i);
    }
  }

  lemma NamesWritten(data: seq<byte>, rows: seq<Row>, obj: Relocatable, l: Layout)
    requires |rows| == |obj.sections| == |l.sectionNames| && StringTable(data, rows, l.names)
    requires Named(rows, SectionData(data, rows[l.names]))
    requires SectionsOf(rows, SectionData(data, rows[l.names])) == obj.sections
    requires forall i | 0 <= i < |rows| :: rows[i] == RowOf(obj.sections[i], l.sectionNames[i])
    ensures NamesLaidOut(data, obj, l)
  {
    var names := SectionData(data, rows[l.names]);
    forall i | 0 <= i < |rows| ensures NamedAt(names, l.sectionNames[i], obj.sections[i].name) {
      NamedAtIff(names, l.sectionNames[i], obj.sections[i].name);
    }
  }

  lemma SymbolsWritten(data: seq<byte>, c: Class, little: bool, t: Row, strings: seq<byte>)
    requires t.offset + t.size <= |data| && SymbolsNamed(data, c, little, t, strings)
    ensures EntriesLaidOut(data, c, little, t.offset, strings, SymbolsOf(data, c, little, t, strings),
                           EntryNames(data, c, little, t))
  {
    var symbols, names := SymbolsOf(data, c, little, t, strings), EntryNames(data, c, little, t);
    forall j | 0 <= j < |symbols| ensures SymbolLaidOut(data, c, little, t.offset, strings, symbols[j], names[j], j) {
      SymbolRead(data, c, little, t, strings, symbols[j], names[j], j);
    }
  }

  lemma EntriesWritten(data: seq<byte>, c: Class, little: bool, t: Row, strings: seq<byte>, obj: Relocatable,
    l: Layout, offset: nat)
    requires t.offset == offset && offset + t.size <= |data| && SymbolsNamed(data, c, little, t, strings)
    requires obj.symbols == SymbolsOf(data, c, little, t, strings) && l.symbolNames == EntryNames(data, c, little, t)
    ensures EntriesLaidOut(data, c, little, offset, strings, obj.symbols, l.symbolNames)
  {
    SymbolsWritten(data, c, little, t, strings);
  }

  lemma SymbolsJoin(data: seq<byte>, c: Class, little: bool, obj: Relocatable, l: Layout,
    offset: nat, strings: seq<byte>)
    requires TableLaidOut(data, c, obj)
    requires var t := obj.sections[obj.symbolTable];
      var s := obj.sections[t.link];
      offset == t.offset && strings == data[s.offset..s.offset + s.size]
    ensures SymbolsLaidOut(data, c, little, obj, l) <==>
      EntriesLaidOut(data, c, little, offset, strings, obj.symbols, l.symbolNames)
  {}

  lemma SymbolTableWritten(data: seq<byte>, c: Class, little: bool, rows: seq<Row>, obj: Relocatable, l: Layout)
    requires |rows| == |obj.sections| == |l.sectionNames| && RowsOk(rows, |data|)
    requires SymbolsReadable(data, c, little, rows, obj.symbolTable)
    requires forall i | 0 <= i < |rows| :: rows[i] == RowOf(obj.sections[i], l.sectionNames[i])
    requires var t := rows[obj.symbolTable];
      obj.symbols == SymbolsOf(data, c, little, t, SectionData(data, rows[t.link])) &&
      l.symbolNames == EntryNames(data, c, little, t)
    ensures SymbolsLaidOut(data, c, little, obj, l)
  {
    var t, table := rows[obj.symbolTable], obj.sections[obj.symbolTable];
    var s := obj.sections[table.link];
    TableRead(data, c, rows, obj, l.sectionNames);
    var strings := data[s.offset..s.offset + s.size];
    StringsRead(data, s, l.sectionNames[table.link], strings);
    EntriesWritten(data, c, little, t, strings, obj, l, table.offset);
    SymbolsJoin(data, c, little, obj, l, table.offset, strings);
  }

  lemma TablesWritten(data: seq<byte>, c: Class, little: bool, h: Header, k: nat) returns (l: Layout)
    requires HeaderOk(h, c, |data|) && TablesOk(data, c, little, h, k)
    ensures l.flags == h.flags && l.names == h.shstr
    ensures var obj := ObjectOf(data, c, little, h, k);
      RowsLaidOut(data, c, little, obj, l) && NamesLaidOut(data, obj, l) && SymbolsLaidOut(data, c, little, obj, l)
  {
    var obj, rows := ObjectOf(data, c, little, h, k), Rows(data, c, little, h.shoff, h.shnum);
    assert RowOk(rows[k], |rows|, |data|);
    l := Layout(h.flags, h.shstr, RowNames(rows), EntryNames(data, c, little, rows[k]));
    RowsWritten(data, c, little, rows, obj, l);
    NamesWritten(data, rows, obj, l);
    SymbolTableWritten(data, c, little, rows, obj, l);
  }

  lemma ReadIsLaidOut(data: seq<byte>, c: Class, little: bool, k: nat) returns (l: Layout)
    requires Accepts(data, c, little, k)
    ensures LaidOut(data, c, little, Object(data, c, little, k), l)
  {
    l := TablesWritten(data, c, little, ReadHeader(data, c, little), k);
    HeaderWritten(data, c, little, Object(data, c, little, k), l);
  }

  /** Reading and laying out are inverse: bytes are accepted as an object exactly when they are a file
      that lays it out. */
  lemma ReadsExactly(data: seq<byte>, c: Class, little: bool, obj: Relocatable)
    ensures Accepts(data, c, little, obj.symbolTable) && Object(data, c, little, obj.symbolTable) == obj <==>
      exists l :: LaidOut(data, c, little, obj, l)
  {
    if Accepts(data, c, little, obj.symbolTable) && Object(data, c, little, obj.symbolTable) == obj {
      var l := ReadIsLaidOut(data, c, little, obj.symbolTable);
    }
    forall l | LaidOut(data, c, little, obj, l)
      ensures Accepts(data, c, little, obj.symbolTable) && Object(data, c, little, obj.symbolTable) == obj
    {
      LaidOutIsRead(data, c, little, obj, l);
    }
  }
}
