/** 64-bit word-at-a-time helpers: finding the first NUL of a word, loads in either byte order,
    and filling a word with one byte. */
module Words {

  const ONE_BITS: bv64 := 0x0101010101010101
  const HIGH_BITS: bv64 := 0x8080808080808080
  const ALL_BUT_LAST_BYTE: bv64 := 0x00FF_FFFF_FFFF_FFFF

  /** The word whose bytes in memory order are b, as a little-endian machine loads it. */
  function Pack(b: seq<bv8>): bv64
    requires |b| == 8
  {
    (b[0] as bv64) | ((b[1] as bv64) << 8) | ((b[2] as bv64) << 16) | ((b[3] as bv64) << 24) |
    ((b[4] as bv64) << 32) | ((b[5] as bv64) << 40) | ((b[6] as bv64) << 48) | ((b[7] as bv64) << 56)
  }

  /** The bytes a little-endian machine stores for w. */
  function Bytes(w: bv64): (b: seq<bv8>)
    ensures |b| == 8
  {
    [(w & 0xFF) as bv8, ((w >> 8) & 0xFF) as bv8, ((w >> 16) & 0xFF) as bv8, ((w >> 24) & 0xFF) as bv8,
     ((w >> 32) & 0xFF) as bv8, ((w >> 40) & 0xFF) as bv8, ((w >> 48) & 0xFF) as bv8, ((w >> 56) & 0xFF) as bv8]
  }

  lemma BytesOfPack(b: seq<bv8>)
    requires |b| == 8
    ensures Bytes(Pack(b)) == b
  {}

  // ----- finding the first zero byte

  function HasZero(a: bv64): bv64 {
    ((a - ONE_BITS) & !a) & HIGH_BITS
  }

  function ZeroBytemask(bits: bv64): bv64 {
    ((bits - 1) & !bits) >> 7
  }

  /** The tzcnt instruction on a nonzero word: how many zero bits are below the lowest set one. */
  function Tzcnt(w: bv64): nat
    requires w != 0
    decreases w
  {
    if w & 1 == 1 then 0 else 1 + Tzcnt(w >> 1)
  }

  lemma TzcntNibble(w: bv64)
    requires w != 0 && w & 0xF == 0
    ensures Tzcnt(w) == 4 + Tzcnt(w >> 4)
  {
    assert Tzcnt(w) == 1 + Tzcnt(w >> 1);
    assert Tzcnt(w >> 1) == 1 + Tzcnt(w >> 2);
    assert Tzcnt(w >> 2) == 1 + Tzcnt(w >> 3);
    assert Tzcnt(w >> 3) == 1 + Tzcnt(w >> 4);
  }

  lemma TzcntZeroByte(w: bv64)
    requires w != 0 && w & 0xFF == 0
    ensures Tzcnt(w) == 8 + Tzcnt(w >> 8)
  {
    TzcntNibble(w);
    TzcntNibble(w >> 4);
  }

  lemma TzcntTopBit(w: bv64)
    requires w & 0xFF == 0x80
    ensures Tzcnt(w) == 7
  {
    TzcntNibble(w);
    var v := w >> 4;
    assert v & 0xF == 8;
    assert Tzcnt(v) == 1 + Tzcnt(v >> 1);
    assert Tzcnt(v >> 1) == 1 + Tzcnt(v >> 2);
    assert Tzcnt(v >> 2) == 1 + Tzcnt(v >> 3);
  }

  /** has_zero is nonzero exactly when some byte of the word is zero. */
  lemma HasZeroIff(w: bv64)
    ensures HasZero(w) != 0 <==> 0 in Bytes(w)
  {}

  /** The k low bytes of a word. */
  function LowMask(k: nat): bv64
    requires k < 8
  {
    match k
    case 0 => 0
    case 1 => 0xFF
    case 2 => 0xFFFF
    case 3 => 0xFF_FFFF
    case 4 => 0xFFFF_FFFF
    case 5 => 0xFF_FFFF_FFFF
    case 6 => 0xFFFF_FFFF_FFFF
    case _ => 0xFF_FFFF_FFFF_FFFF
  }

  /** has_zero may also mark bytes above the first zero byte, but the mask below its lowest set
      bit covers exactly the bytes before the first zero. */
  lemma FirstZeroMask(w: bv64, k: nat)
    requires k < 8 && Bytes(w)[k] == 0 && 0 !in Bytes(w)[..k]
    ensures HasZero(w) != 0 && ZeroBytemask(HasZero(w)) == LowMask(k)
  {
    var b := Bytes(w);
    if k > 0 { assert b[0] in b[..k]; }
    if k > 1 { assert b[1] in b[..k]; }
    if k > 2 { assert b[2] in b[..k]; }
    if k > 3 { assert b[3] in b[..k]; }
    if k > 4 { assert b[4] in b[..k]; }
    if k > 5 { assert b[5] in b[..k]; }
    if k > 6 { assert b[6] in b[..k]; }
  }

  lemma HighBitsOnly(w: bv64)
    ensures HasZero(w) & HIGH_BITS == HasZero(w)
  {}

  lemma {:induction false} TzcntOfMask(bits: bv64, k: nat)
    requires k < 8 && bits != 0 && bits & HIGH_BITS == bits && ZeroBytemask(bits) == LowMask(k)
    ensures Tzcnt(bits) == 8 * k + 7
  {
    if k == 0 {
      TzcntTopBit(bits);
    } else {
      NextLane(bits, k);
      TzcntZeroByte(bits);
      TzcntOfMask(bits >> 8, k - 1);
    }
  }

  lemma NextLane(bits: bv64, k: nat)
    requires 0 < k < 8 && bits != 0 && bits & HIGH_BITS == bits && ZeroBytemask(bits) == LowMask(k)
    ensures bits & 0xFF == 0 && bits >> 8 != 0 && (bits >> 8) & HIGH_BITS == bits >> 8
    ensures ZeroBytemask(bits >> 8) == LowMask(k - 1)
  {}

  /** zero_bytemask and the trailing-zero count agree on where the first zero byte is. */
  lemma FirstZeroAt(w: bv64, k: nat)
    requires k < 8 && Bytes(w)[k] == 0 && 0 !in Bytes(w)[..k]
    ensures HasZero(w) != 0 && ZeroBytemask(HasZero(w)) == LowMask(k)
    ensures Tzcnt(HasZero(w)) / 8 == k
  {
    FirstZeroMask(w, k);
    HighBitsOnly(w);
    TzcntOfMask(HasZero(w), k);
  }

  function Zeros(n: nat): (z: seq<bv8>)
    ensures |z| == n && forall i | 0 <= i < n :: z[i] == 0
  {
    seq(n, _ => 0)
  }

  /** b with every byte from index k on cleared. */
  function ClearFrom(b: seq<bv8>, k: nat): seq<bv8>
    requires k <= |b|
  {
    b[..k] + Zeros(|b| - k)
  }

  lemma LowMaskBytes(w: bv64, k: nat)
    requires k < 8
    ensures Bytes(w & LowMask(k))[0] == if 0 < k then Bytes(w)[0] else 0
    ensures Bytes(w & LowMask(k))[1] == if 1 < k then Bytes(w)[1] else 0
    ensures Bytes(w & LowMask(k))[2] == if 2 < k then Bytes(w)[2] else 0
    ensures Bytes(w & LowMask(k))[3] == if 3 < k then Bytes(w)[3] else 0
    ensures Bytes(w & LowMask(k))[4] == if 4 < k then Bytes(w)[4] else 0
    ensures Bytes(w & LowMask(k))[5] == if 5 < k then Bytes(w)[5] else 0
    ensures Bytes(w & LowMask(k))[6] == if 6 < k then Bytes(w)[6] else 0
    ensures Bytes(w & LowMask(k))[7] == 0
  {}

  lemma ClearFromBytes(r: seq<bv8>, b: seq<bv8>, k: nat)
    requires |r| == |b| == 8 && k < 8
    requires r[0] == if 0 < k then b[0] else 0
    requires r[1] == if 1 < k then b[1] else 0
    requires r[2] == if 2 < k then b[2] else 0
    requires r[3] == if 3 < k then b[3] else 0
    requires r[4] == if 4 < k then b[4] else 0
    requires r[5] == if 5 < k then b[5] else 0
    requires r[6] == if 6 < k then b[6] else 0
    requires r[7] == 0
    ensures r == ClearFrom(b, k)
  {}

  lemma LowMaskClears(w: bv64, k: nat)
    requires k < 8
    ensures Bytes(w & LowMask(k)) == ClearFrom(Bytes(w), k)
  {
    LowMaskBytes(w, k);
    ClearFromBytes(Bytes(w & LowMask(k)), Bytes(w), k);
  }

  /** The index of the first zero byte, or |b|. */
  function ZeroIndex(b: seq<bv8>): (k: nat)
    ensures k <= |b| && 0 !in b[..k] && (k < |b| ==> b[k] == 0)
  {
    if b == [] || b[0] == 0 then 0
    else
      var k := 1 + ZeroIndex(b[1..]);
      assert b[..k] == [b[0]] + b[1..][..k - 1];
      k
  }

  lemma ZeroIndexFound(b: seq<bv8>)
    requires 0 in b
    ensures ZeroIndex(b) < |b|
  {}

  // ----- the word operations of the copy loop, each specified by what it does to the bytes

  method Load(b: seq<bv8>) returns (c: bv64)
    requires |b| == 8
    ensures Bytes(c) == b
  {
    c := Pack(b);
    BytesOfPack(b);
  }

  /** has_zero, prep_zero_mask and create_zero_mask; the last two return their argument. */
  method FindZeroBits(c: bv64) returns (found: bool, data: bv64)
    ensures found <==> 0 in Bytes(c)
    ensures data == HasZero(c)
  {
    data := HasZero(c);
    found := data != 0;
    HasZeroIff(c);
  }

  /** The bytes stored for c & zero_bytemask(data), and find_zero(data). */
  method MaskedStore(c: bv64, data: bv64) returns (stored: seq<bv8>, k: nat)
    requires 0 in Bytes(c) && data == HasZero(c)
    ensures k == ZeroIndex(Bytes(c)) < 8
    ensures stored == ClearFrom(Bytes(c), k)
  {
    ghost var z := ZeroIndex(Bytes(c));
    ZeroIndexFound(Bytes(c));
    FirstZeroAt(c, z);
    LowMaskClears(c, z);
    stored := Bytes(c & ZeroBytemask(data));
    k := Tzcnt(data) / 8;
  }

  /** One step of the copy: is there a NUL in the word, and if so what is stored and where it is. */
  method ProbeWord(word: seq<bv8>) returns (found: bool, stored: seq<bv8>, k: nat)
    requires |word| == 8
    ensures found <==> 0 in word
    ensures found ==> k == ZeroIndex(word) < 8 && stored == ClearFrom(word, k)
  {
    stored, k := [], 0;
    var c := Load(word);
    var data;
    found, data := FindZeroBits(c);
    if found {
      stored, k := MaskedStore(c, data);
    }
  }

  /** The bytes stored for c & ~0ul >> 8. */
  method TruncateWord(word: seq<bv8>) returns (stored: seq<bv8>)
    requires |word| == 8
    ensures stored == ClearFrom(word, 7)
  {
    var c := Load(word);
    stored := Bytes(c & ALL_BUT_LAST_BYTE);
    LowMaskClears(c, 7);
  }

  // ----- either byte order

  function Reverse8(b: seq<bv8>): seq<bv8>
    requires |b| == 8
  {
    [b[7], b[6], b[5], b[4], b[3], b[2], b[1], b[0]]
  }

  /** An eight-byte load in the machine's byte order. */
  function LoadWord(b: seq<bv8>, little: bool): bv64
    requires |b| == 8
  {
    Pack(if little then b else Reverse8(b))
  }

  /** Two loads are equal exactly when the eight bytes are, in either byte order. */
  lemma LoadWordInjective(a: seq<bv8>, b: seq<bv8>, little: bool)
    requires |a| == |b| == 8
    ensures LoadWord(a, little) == LoadWord(b, little) <==> a == b
  {
    var x, y := if little then a else Reverse8(a), if little then b else Reverse8(b);
    PackInjective(x, y);
    ReverseInjective(a, b);
  }

  lemma PackInjective(x: seq<bv8>, y: seq<bv8>)
    requires |x| == |y| == 8
    ensures Pack(x) == Pack(y) <==> x == y
  {
    BytesOfPack(x);
    BytesOfPack(y);
  }

  lemma ReverseInjective(a: seq<bv8>, b: seq<bv8>)
    requires |a| == |b| == 8
    ensures Reverse8(a) == Reverse8(b) <==> a == b
  {
    assert Reverse8(Reverse8(a)) == a && Reverse8(Reverse8(b)) == b;
  }

  method WordsDiffer(a: seq<bv8>, b: seq<bv8>, little: bool) returns (differ: bool)
    requires |a| == |b| == 8
    ensures differ <==> a != b
  {
    LoadWordInjective(a, b, little);
    differ := LoadWord(a, little) != LoadWord(b, little);
  }

  // ----- filling a word with one byte

  datatype Replication = FastMultiplier64 | FastMultiplier32 | Shifts

  function Replicate(value: bv8, how: Replication): bv64 {
    var v := value as bv64;
    match how
    case FastMultiplier64 => v * 0x0101010101010101
    case FastMultiplier32 =>
      var v1 := v * 0x01010101;
      v1 | (v1 << 32)
    case Shifts =>
      var v1 := v | (v << 8);
      var v2 := v1 | (v1 << 16);
      v2 | (v2 << 32)
  }

  /** All three configurations build the word whose eight bytes are all the value, in either byte order. */
  lemma ReplicateFills(value: bv8, how: Replication, little: bool)
    ensures Replicate(value, how) ==
            LoadWord([value, value, value, value, value, value, value, value], little)
  {}

  datatype Fill = Fill(value64: bv64, value: bv8, little: bool)

  /** A word, and the byte all eight of its bytes are. */
  type FilledWord = f: Fill | f.value64 == LoadWord([f.value, f.value, f.value, f.value, f.value, f.value, f.value, f.value], f.little)
    witness Fill(0, 0, true)

  method FillWord(value: bv8, how: Replication, little: bool) returns (f: FilledWord)
    ensures f.value == value && f.little == little
  {
    ReplicateFills(value, how, little);
    f := Fill(Replicate(value, how), value, little);
  }

  method UnlikeFilled(word: seq<bv8>, f: FilledWord) returns (unlike: bool)
    requires |word| == 8
    ensures unlike <==> exists i | 0 <= i < 8 :: word[i] != f.value
  {
    unlike := LoadWord(word, f.little) != f.value64;
    var same := [f.value, f.value, f.value, f.value, f.value, f.value, f.value, f.value];
    LoadWordInjective(word, same, f.little);
    assert (forall i | 0 <= i < 8 :: word[i] == f.value) ==> word == same;
  }
}
