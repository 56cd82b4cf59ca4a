/** The relocatable ELF reader: both classes and both byte orders (System V ABI, chapter 4). */
module ElfReader {
  import opened Common

  type byte = x: int | 0 <= x < 256

  /** The bytes of a name of ASCII characters. */
  function Ascii(name: string): seq<byte> {
    seq(|name|, i requires 0 <= i < |name| => if name[i] < 128 as char then name[i] as int else 0)
  }

  // ----- fixed-size fields

  /** An n-byte unsigned field. */
  function Field(data: seq<byte>, little: bool, off: nat, n: nat): nat
    requires off + n <= |data|
    decreases n
  {
    if n == 0 then 0
    else if little then data[off] + 256 * Field(data, little, off + 1, n - 1)
    else 256 * Field(data, little, off, n - 1) + data[off + n - 1]
  }

  datatype Class = Elf32 | Elf64

  function HeaderSize(c: Class): nat { if c == Elf32 then 52 else 64 }

  function SectionSize(c: Class): nat { if c == Elf32 then 40 else 64 }

  function SymbolSize(c: Class): nat { if c == Elf32 then 16 else 24 }

  datatype Header = Header(kind: nat, machine: nat, version: nat, entry: nat, phoff: nat, shoff: nat, flags: nat,
                           ehsize: nat, phentsize: nat, phnum: nat, shentsize: nat, shnum: nat, shstr: nat)

  function ReadHeader(data: seq<byte>, c: Class, little: bool): Header
    requires HeaderSize(c) <= |data|
  {
    var f := (off: nat, n: nat) requires off + n <= |data| => Field(data, little, off, n);
    if c == Elf32 then
      Header(f(16, 2), f(18, 2), f(20, 4), f(24, 4), f(28, 4), f(32, 4), f(36, 4),
             f(40, 2), f(42, 2), f(44, 2), f(46, 2), f(48, 2), f(50, 2))
    else
      Header(f(16, 2), f(18, 2), f(20, 4), f(24, 8), f(32, 8), f(40, 8), f(48, 4),
             f(52, 2), f(54, 2), f(56, 2), f(58, 2), f(60, 2), f(62, 2))
  }

  datatype Row = Row(name: nat, kind: nat, flags: nat, address: nat, offset: nat, size: nat,
                     link: nat, info: nat, alignment: nat, entrySize: nat)

  function ReadRow(data: seq<byte>, c: Class, little: bool, off: nat): Row
    requires off + SectionSize(c) <= |data|
  {
    var f := (o: nat, n: nat) requires off + o + n <= |data| => Field(data, little, off + o, n);
    if c == Elf32 then
      Row(f(0, 4), f(4, 4), f(8, 4), f(12, 4), f(16, 4), f(20, 4), f(24, 4), f(28, 4), f(32, 4), f(36, 4))
    else
      Row(f(0, 4), f(4, 4), f(8, 8), f(16, 8), f(24, 8), f(32, 8), f(40, 4), f(44, 4), f(48, 8), f(56, 8))
  }

  /** A symbol table entry whose name is still an offset. */
  datatype Entry = Entry(name: nat, value: nat, size: nat, info: nat, other: nat, section: nat)

  function ReadEntry(data: seq<byte>, c: Class, little: bool, off: nat): Entry
    requires off + SymbolSize(c) <= |data|
  {
    var f := (o: nat, n: nat) requires off + o + n <= |data| => Field(data, little, off + o, n);
    if c == Elf32 then Entry(f(0, 4), f(4, 4), f(8, 4), f(12, 1), f(13, 1), f(14, 2))
    else Entry(f(0, 4), f(8, 8), f(16, 8), f(4, 1), f(5, 1), f(6, 2))
  }

  // ----- strings

  /** The offset of the first NUL at or after off, or |table|. */
  function NulFrom(table: seq<byte>, off: nat): (k: nat)
    requires off <= |table|
    ensures off <= k <= |table| && 0 !in table[off..k] && (k < |table| ==> table[k] == 0)
    decreases |table| - off
  {
    if off == |table| || table[off] == 0 then off
    else
      var k := NulFrom(table, off + 1);
      assert table[off..k] == [table[off]] + table[off + 1..k];
      k
  }

  /** string(table, offset): None for an offset outside the table or a missing terminator. */
  function TableString(table: seq<byte>, off: nat): Option<seq<byte>> {
    if off >= |table| || NulFrom(table, off) == |table| then None else Some(table[off..NulFrom(table, off)])
  }

  // ----- the object

  datatype Section = Section(name: seq<byte>, kind: nat, flags: nat, address: nat, offset: nat, size: nat,
                             link: nat, info: nat, alignment: nat, entrySize: nat)

  datatype Symbol = Symbol(name: seq<byte>, value: nat, size: nat, info: nat, other: nat, section: nat)

  datatype Relocatable = Relocatable(data: seq<byte>, class_: Class, little: bool, machine: nat, sectionOffset: nat,
                                     sections: seq<Section>, symbols: seq<Symbol>, symbolTable: nat)

  /** The checked machine fields of the model, None when they are missing. */
  datatype Machine = Machine(pointerSize: int, littleEndian: bool)

  function NameSection(row: Row, name: seq<byte>): Section {
    Section(name, row.kind, row.flags, row.address, row.offset, row.size, row.link, row.info, row.alignment,
            row.entrySize)
  }

  function NameSymbol(e: Entry, name: seq<byte>): Symbol {
    Symbol(name, e.value, e.size, e.info, e.other, e.section)
  }

  predicate PowerOfTwo(n: nat) {
    n == 1 || (n > 0 && n % 2 == 0 && PowerOfTwo(n / 2))
  }

  predicate IdentOk(data: seq<byte>, c: Class, little: bool) {
    HeaderSize(c) <= |data| &&
    data[..7] == [127, 69, 76, 70, if c == Elf32 then 1 else 2, if little then 1 else 2, 1]
  }

  predicate HeaderOk(h: Header, c: Class, len: nat) {
    h.kind == 1 && h.version == 1 && h.entry == 0 && h.ehsize == HeaderSize(c) &&
    h.phoff == h.phentsize == h.phnum == 0 && h.shentsize == SectionSize(c) &&
    2 <= h.shnum < 0xff00 && 0 < h.shstr < h.shnum && h.shoff >= HeaderSize(c) &&
    h.shoff + h.shnum * SectionSize(c) <= len
  }

  predicate RowOk(row: Row, shnum: nat, len: nat) {
    row.offset <= len && (row.kind == 8 || row.offset + row.size <= len) && row.link < shnum &&
    (row.alignment == 0 || PowerOfTwo(row.alignment))
  }

  const NULL_ROW := Row(0, 0, 0, 0, 0, 0, 0, 0, 0, 0)

  // ----- what is accepted, and what is read

  predicate HeaderReadable(data: seq<byte>, c: Class, little: bool) {
    IdentOk(data, c, little) && HeaderOk(ReadHeader(data, c, little), c, |data|)
  }

  lemma RowInside(c: Class, shoff: nat, shnum: nat, len: nat, i: nat)
    requires shoff + shnum * SectionSize(c) <= len && i < shnum
    ensures shoff + i * SectionSize(c) + SectionSize(c) <= len
  {}

  function RowAt(data: seq<byte>, c: Class, little: bool, shoff: nat, shnum: nat, i: nat): Row
    requires shoff + shnum * SectionSize(c) <= |data| && i < shnum
  {
    RowInside(c, shoff, shnum, |data|, i);
    ReadRow(data, c, little, shoff + i * SectionSize(c))
  }

  function Rows(data: seq<byte>, c: Class, little: bool, shoff: nat, shnum: nat): (rows: seq<Row>)
    requires shoff + shnum * SectionSize(c) <= |data|
    ensures |rows| == shnum && forall i | 0 <= i < shnum :: rows[i] == RowAt(data, c, little, shoff, shnum, i)
  {
    seq(shnum, i requires 0 <= i < shnum => RowAt(data, c, little, shoff, shnum, i))
  }

  predicate RowsOk(rows: seq<Row>, len: nat) {
    rows != [] && rows[0] == NULL_ROW && forall i | 1 <= i < |rows| :: RowOk(rows[i], |rows|, len)
  }

  function SectionData(data: seq<byte>, row: Row): seq<byte>
    requires row.offset + row.size <= |data|
  {
    data[row.offset..row.offset + row.size]
  }

  /** Row k is a string table in the file that starts with NUL. */
  predicate StringTable(data: seq<byte>, rows: seq<Row>, k: nat) {
    k < |rows| && rows[k].kind == 3 && rows[k].offset + rows[k].size <= |data| &&
    var table := SectionData(data, rows[k]); table != [] && table[0] == 0
  }

  /** Every row has a name in the name table. */
  predicate Named(rows: seq<Row>, names: seq<byte>) {
    forall i | 0 <= i < |rows| :: TableString(names, rows[i].name).Some?
  }

  /** Row k is the only symbol table. */
  predicate OnlySymbolTable(rows: seq<Row>, k: nat) {
    k < |rows| && forall i | 0 <= i < |rows| :: rows[i].kind == 2 <==> i == k
  }

  predicate SymbolTableOk(rows: seq<Row>, k: nat, c: Class)
    requires k < |rows|
  {
    var t := rows[k];
    t.entrySize == SymbolSize(c) && t.size >= SymbolSize(c) && t.size % SymbolSize(c) == 0 &&
    0 < t.link < |rows| && rows[t.link].kind == 3
  }

  function EntryAt(data: seq<byte>, c: Class, little: bool, table: Row, i: nat): Entry
    requires table.offset + table.size <= |data| && i < table.size / SymbolSize(c)
  {
    assert i * SymbolSize(c) + SymbolSize(c) <= table.size;
    ReadEntry(data, c, little, table.offset + i * SymbolSize(c))
  }

  predicate SymbolsNamed(data: seq<byte>, c: Class, little: bool, table: Row, strings: seq<byte>)
    requires table.offset + table.size <= |data|
  {
    forall i | 0 <= i < table.size / SymbolSize(c) ::
      TableString(strings, EntryAt(data, c, little, table, i).name).Some?
  }

  /** Row k is the only symbol table, and every symbol in it has a name. */
  predicate SymbolsReadable(data: seq<byte>, c: Class, little: bool, rows: seq<Row>, k: nat)
    requires RowsOk(rows, |data|)
  {
    OnlySymbolTable(rows, k) && SymbolTableOk(rows, k, c) && StringTable(data, rows, rows[k].link) &&
    assert RowOk(rows[k], |rows|, |data|) by { assert rows[k] != NULL_ROW; }
    SymbolsNamed(data, c, little, rows[k], SectionData(data, rows[rows[k].link]))
  }

  /** The tables behind header h are accepted, with the symbol table at index k. */
  predicate TablesOk(data: seq<byte>, c: Class, little: bool, h: Header, k: nat)
    requires HeaderOk(h, c, |data|)
  {
    var rows := Rows(data, c, little, h.shoff, h.shnum);
    RowsOk(rows, |data|) && StringTable(data, rows, h.shstr) && Named(rows, SectionData(data, rows[h.shstr])) &&
    SymbolsReadable(data, c, little, rows, k)
  }

  function SectionsOf(rows: seq<Row>, names: seq<byte>): (sections: seq<Section>)
    requires Named(rows, names)
    ensures |sections| == |rows|
    ensures forall i | 0 <= i < |rows| :: sections[i] == NameSection(rows[i], TableString(names, rows[i].name).value)
  {
    seq(|rows|, i requires 0 <= i < |rows| => NameSection(rows[i], TableString(names, rows[i].name).value))
  }

  function SymbolAt(data: seq<byte>, c: Class, little: bool, table: Row, strings: seq<byte>, i: nat): Symbol
    requires table.offset + table.size <= |data| && i < table.size / SymbolSize(c)
    requires TableString(strings, EntryAt(data, c, little, table, i).name).Some?
  {
    var e := EntryAt(data, c, little, table, i);
    NameSymbol(e, TableString(strings, e.name).value)
  }

  function SymbolsOf(data: seq<byte>, c: Class, little: bool, table: Row, strings: seq<byte>): (symbols: seq<Symbol>)
    requires table.offset + table.size <= |data| && SymbolsNamed(data, c, little, table, strings)
    ensures |symbols| == table.size / SymbolSize(c)
    ensures forall i | 0 <= i < |symbols| :: symbols[i] == SymbolAt(data, c, little, table, strings, i)
  {
    seq(table.size / SymbolSize(c), i requires 0 <= i < table.size / SymbolSize(c) =>
      SymbolAt(data, c, little, table, strings, i))
  }

  /** The object those tables describe. */
  function ObjectOf(data: seq<byte>, c: Class, little: bool, h: Header, k: nat): Relocatable
    requires HeaderOk(h, c, |data|) && TablesOk(data, c, little, h, k)
  {
    var rows := Rows(data, c, little, h.shoff, h.shnum);
    var names, strings := SectionData(data, rows[h.shstr]), SectionData(data, rows[rows[k].link]);
    Relocatable(data, c, little, h.machine, h.shoff, SectionsOf(rows, names),
                SymbolsOf(data, c, little, rows[k], strings), k)
  }

  predicate Accepts(data: seq<byte>, c: Class, little: bool, k: nat) {
    HeaderReadable(data, c, little) && TablesOk(data, c, little, ReadHeader(data, c, little), k)
  }

  function Object(data: seq<byte>, c: Class, little: bool, k: nat): Relocatable
    requires Accepts(data, c, little, k)
  {
    ObjectOf(data, c, little, ReadHeader(data, c, little), k)
  }

  // ----- the reader

  method ReadRows(data: seq<byte>, c: Class, little: bool, shoff: nat, shnum: nat) returns (rows: seq<Row>)
    requires shoff + shnum * SectionSize(c) <= |data|
    ensures rows == Rows(data, c, little, shoff, shnum)
  {
    rows := [];
    for i := 0 to shnum
      invariant |rows| == i && forall j | 0 <= j < i :: rows[j] == RowAt(data, c, little, shoff, shnum, j)
    {
      rows := rows + [RowAt(data, c, little, shoff, shnum, i)];
    }
  }

  method CheckRows(rows: seq<Row>, len: nat) returns (ok: bool)
    requires rows != []
    ensures ok <==> RowsOk(rows, len)
  {
    if rows[0] != NULL_ROW {
      return false;
    }
    for i := 1 to |rows|
      invariant forall j | 1 <= j < i :: RowOk(rows[j], |rows|, len)
    {
      if !RowOk(rows[i], |rows|, len) {
        return false;
      }
    }
    return true;
  }

  method NameSections(rows: seq<Row>, names: seq<byte>) returns (sections: Option<seq<Section>>)
    ensures sections.Some? <==> Named(rows, names)
    ensures sections.Some? ==> sections.value == SectionsOf(rows, names)
  {
    var out := [];
    for i := 0 to |rows|
      invariant |out| == i && forall j | 0 <= j < i :: TableString(names, rows[j].name).Some?
      invariant forall j | 0 <= j < i :: out[j] == NameSection(rows[j], TableString(names, rows[j].name).value)
    {
      var name := TableString(names, rows[i].name);
      if name == None {
        return None;
      }
      out := out + [NameSection(rows[i], name.value)];
    }
    return Some(out);
  }

  method FindSymbolTable(rows: seq<Row>) returns (k: Option<nat>)
    ensures k.Some? ==> OnlySymbolTable(rows, k.value)
    ensures k == None ==> forall j: nat :: !OnlySymbolTable(rows, j)
  {
    var tables: seq<nat> := [];
    for i := 0 to |rows|
      invariant forall j | 0 <= j < |tables| :: tables[j] < i && rows[tables[j]].kind == 2
      invariant forall j | 0 < j < |tables| :: tables[j - 1] < tables[j]
      invariant forall j | 0 <= j < i && rows[j].kind == 2 :: |tables| > 0 && (|tables| == 1 ==> tables[0] == j)
    {
      if rows[i].kind == 2 {
        tables := tables + [i];
      }
    }
    if |tables| != 1 {
      forall j: nat ensures !OnlySymbolTable(rows, j) {
        if j < |rows| && rows[j].kind == 2 && |tables| > 1 {
          var other := if tables[0] == j then tables[1] else tables[0];
          assert other != j && rows[other].kind == 2;
        }
      }
      return None;
    }
    return Some(tables[0]);
  }

  method ReadSymbols(data: seq<byte>, c: Class, little: bool, table: Row, strings: seq<byte>)
    returns (symbols: Option<seq<Symbol>>)
    requires table.offset + table.size <= |data| && table.size % SymbolSize(c) == 0
    ensures symbols.Some? <==> SymbolsNamed(data, c, little, table, strings)
    ensures symbols.Some? ==> symbols.value == SymbolsOf(data, c, little, table, strings)
  {
    var out: seq<Symbol> := [];
    var step, offset := SymbolSize(c), table.offset;
    while offset < table.offset + table.size
      invariant offset == table.offset + |out| * step && |out| <= table.size / step
      invariant forall j | 0 <= j < |out| ::
        TableString(strings, EntryAt(data, c, little, table, j).name).Some? &&
        out[j] == SymbolAt(data, c, little, table, strings, j)
    {
      var i := |out|;
      assert i < table.size / step;
      var e := ReadEntry(data, c, little, offset);
      assert e == EntryAt(data, c, little, table, i);
      var name := TableString(strings, e.name);
      if name == None {
        return None;
      }
      out := out + [NameSymbol(e, name.value)];
      offset := offset + step;
    }
    return Some(out);
  }

  /** The class and byte order the machine fields ask for. */
  function ClassOf(m: Machine): Class {
    if m.pointerSize == 4 then Elf32 else Elf64
  }

  predicate MachineOk(machine: Option<Machine>) {
    machine.Some? && (machine.value.pointerSize == 4 || machine.value.pointerSize == 8)
  }

  method ParseSymbols(data: seq<byte>, c: Class, little: bool, rows: seq<Row>)
    returns (k: Option<nat>, symbols: seq<Symbol>)
    requires RowsOk(rows, |data|)
    ensures k.Some? ==>
              SymbolsReadable(data, c, little, rows, k.value) &&
              symbols == SymbolsOf(data, c, little, rows[k.value], SectionData(data, rows[rows[k.value].link]))
    ensures k == None ==> forall j: nat :: !SymbolsReadable(data, c, little, rows, j)
  {
    symbols := [];
    k := FindSymbolTable(rows);
    if k == None {
      return;
    }
    forall j: nat | OnlySymbolTable(rows, j) ensures j == k.value {
      assert rows[j].kind == 2;
    }
    var table := rows[k.value];
    if !SymbolTableOk(rows, k.value, c) {
      return None, [];
    }
    assert RowOk(rows[table.link], |rows|, |data|) && RowOk(table, |rows|, |data|);
    if !StringTable(data, rows, table.link) {
      return None, [];
    }
    var read := ReadSymbols(data, c, little, table, SectionData(data, rows[table.link]));
    if read == None {
      return None, [];
    }
    symbols := read.value;
  }

  method ParseTables(data: seq<byte>, c: Class, little: bool, h: Header) returns (r: Result<Relocatable>)
    requires HeaderOk(h, c, |data|)
    ensures r.Ok? ==> TablesOk(data, c, little, h, r.value.symbolTable)
    ensures r.Ok? ==> r.value == ObjectOf(data, c, little, h, r.value.symbolTable)
    ensures r == Rejected ==> forall k: nat :: !TablesOk(data, c, little, h, k)
  {
    var rows := ReadRows(data, c, little, h.shoff, h.shnum);
    var rowsOk := CheckRows(rows, |data|);
    if !rowsOk {
      return Rejected;
    }
    assert RowOk(rows[h.shstr], |rows|, |data|);
    if !StringTable(data, rows, h.shstr) {
      return Rejected;
    }
    var sections := NameSections(rows, SectionData(data, rows[h.shstr]));
    if sections == None {
      return Rejected;
    }
    var k, symbols := ParseSymbols(data, c, little, rows);
    if k == None {
      return Rejected;
    }
    r := Ok(Relocatable(data, c, little, h.machine, h.shoff, sections.value, symbols, k.value));
  }

  /** Total on arbitrary bytes: it rejects, or it reads the whole object; every read it makes is inside
      the data. */
  method ParseRelocatable(data: seq<byte>, machine: Option<Machine>) returns (r: Result<Relocatable>)
    ensures r.Ok? ==>
              MachineOk(machine) &&
              var c, little, k := ClassOf(machine.value), machine.value.littleEndian, r.value.symbolTable;
              Accepts(data, c, little, k) && r.value == Object(data, c, little, k)
    ensures r == Rejected ==>
              !MachineOk(machine) ||
              forall k: nat :: !Accepts(data, ClassOf(machine.value), machine.value.littleEndian, k)
  {
    if !MachineOk(machine) {
      return Rejected;
    }
    var c, little := ClassOf(machine.value), machine.value.littleEndian;
    if !HeaderReadable(data, c, little) {
      return Rejected;
    }
    r := ParseTables(data, c, little, ReadHeader(data, c, little));
  }

  /** A name returned for an offset is the bytes from there up to a NUL inside the table. */
  lemma NameIsTerminated(table: seq<byte>, off: nat)
    ensures match TableString(table, off)
      case Some(name) =>
        off + |name| < |table| && table[off..off + |name|] == name && table[off + |name|] == 0 && 0 !in name
      case None => off >= |table| || 0 !in table[off..]
  {}

  function Reverse(b: seq<byte>): (r: seq<byte>)
    ensures |r| == |b|
  {
    if b == [] then [] else Reverse(b[1..]) + [b[0]]
  }

  /** A field is read from its own bytes only. */
  lemma {:induction false} FieldMoved(data: seq<byte>, data': seq<byte>, little: bool, off: nat, off': nat, n: nat)
    requires off + n <= |data| && off' + n <= |data'| && data[off..off + n] == data'[off'..off' + n]
    ensures Field(data, little, off, n) == Field(data', little, off', n)
    decreases n
  {
    if n > 0 {
      var b, b' := data[off..off + n], data'[off'..off' + n];
      assert b[0] == data[off] && b'[0] == data'[off'] && b[n - 1] == data[off + n - 1] && b'[n - 1] == data'[off' + n - 1];
      if little {
        assert data[off + 1..off + n] == b[1..] && data'[off' + 1..off' + n] == b'[1..];
        FieldMoved(data, data', little, off + 1, off' + 1, n - 1);
      } else {
        assert data[off..off + (n - 1)] == b[..n - 1] && data'[off'..off' + (n - 1)] == b'[..n - 1];
        FieldMoved(data, data', little, off, off', n - 1);
      }
    }
  }

  /** The two byte orders read the same number from mirrored bytes. */
  lemma {:induction false} EndianMirror(b: seq<byte>)
    ensures Field(Reverse(b), false, 0, |b|) == Field(b, true, 0, |b|)
  {
    if b != [] {
      var rest, r, n := b[1..], Reverse(b), |b| - 1;
      EndianMirror(rest);
      assert r == Reverse(rest) + [b[0]];
      assert rest[0..n] == b[1..1 + n] && Reverse(rest)[0..n] == r[0..n];
      FieldMoved(rest, b, true, 0, 1, n);
      FieldMoved(Reverse(rest), r, false, 0, 0, n);
    }
  }

  // ----- what a reader of the object may rely on

  predicate WellFormed(obj: Relocatable) {
    var n := |obj.sections|;
    2 <= n < 0xff00 && HeaderSize(obj.class_) <= obj.sectionOffset &&
    obj.sectionOffset + n * SectionSize(obj.class_) <= |obj.data| &&
    obj.sections[0] == NameSection(NULL_ROW, obj.sections[0].name) &&
    (forall i | 0 <= i < n :: obj.sections[i].link < n &&
      (obj.sections[i].kind != 8 ==> obj.sections[i].offset + obj.sections[i].size <= |obj.data|)) &&
    obj.symbolTable < n && obj.sections[obj.symbolTable].kind == 2 && |obj.symbols| > 0 &&
    |obj.symbols| == obj.sections[obj.symbolTable].size / SymbolSize(obj.class_)
  }

  lemma ReadIsWellFormed(data: seq<byte>, c: Class, little: bool, h: Header, k: nat)
    requires HeaderOk(h, c, |data|) && TablesOk(data, c, little, h, k)
    ensures WellFormed(ObjectOf(data, c, little, h, k))
  {
    var rows, obj := Rows(data, c, little, h.shoff, h.shnum), ObjectOf(data, c, little, h, k);
    forall i | 0 <= i < |rows|
      ensures obj.sections[i].link < |rows| &&
        (obj.sections[i].kind != 8 ==> obj.sections[i].offset + obj.sections[i].size <= |data|)
    {
      if i > 0 {
        assert RowOk(rows[i], |rows|, |data|);
      }
    }
    assert rows[k].kind == 2;
  }
}
