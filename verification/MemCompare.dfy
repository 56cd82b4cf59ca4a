/** memcmp and memchr_inv: word-stepping scans against the plain byte scans. */
module MemCompare {
  import opened Common
  import opened Memory
  import opened Words

  // ----- memcmp

  /** The first index where a and b differ, or their common length. */
  function FirstDifference(a: seq<bv8>, b: seq<bv8>): (k: nat)
    requires |a| == |b|
    ensures k <= |a| && a[..k] == b[..k] && (k < |a| ==> a[k] != b[k])
  {
    if a == [] || a[0] != b[0] then 0
    else
      var k := 1 + FirstDifference(a[1..], b[1..]);
      assert a[..k] == [a[0]] + a[1..][..k - 1] && b[..k] == [b[0]] + b[1..][..k - 1];
      k
  }

  function Difference(a: seq<bv8>, b: seq<bv8>): int
    requires |a| == |b|
  {
    var k := FirstDifference(a, b);
    if k < |a| then a[k] as int - b[k] as int else 0
  }

  lemma SameByte(x: bv8, y: bv8)
    ensures x as int - y as int == 0 <==> x == y
  {}

  lemma DifferenceAt(a: seq<bv8>, b: seq<bv8>, k: nat)
    requires |a| == |b| && k <= |a| && a[..k] == b[..k]
    requires k < |a| ==> a[k] != b[k]
    ensures FirstDifference(a, b) == k
  {}

  /** memcmp is zero exactly on equal ranges, and swapping the ranges negates it. */
  lemma DifferenceLaws(a: seq<bv8>, b: seq<bv8>)
    requires |a| == |b|
    ensures Difference(a, b) == 0 <==> a == b
    ensures Difference(b, a) == -Difference(a, b)
  {
    var k := FirstDifference(a, b);
    DifferenceAt(b, a, k);
    if k < |a| {
      SameByte(a[k], b[k]);
    } else {
      assert a[..k] == a && b[..k] == b;
    }
  }

  /** The sign and size of the result are those of the first differing bytes. */
  lemma DifferenceIs(a: seq<bv8>, b: seq<bv8>, k: nat)
    requires k < |a| == |b| && a[..k] == b[..k] && a[k] != b[k]
    ensures Difference(a, b) == a[k] as int - b[k] as int
  {
    DifferenceAt(a, b, k);
  }

  /** The word loop: skip equal words, leaving fewer than eight bytes or an unequal word. */
  method SkipEqualWords(mem: array<bv8>, cs: nat, ct: nat, count: nat, little: bool) returns (i: nat)
    requires cs + count <= mem.Length && ct + count <= mem.Length
    ensures i <= count && Range(mem[..], cs, i) == Range(mem[..], ct, i)
    ensures count - i < 8 || Range(mem[..], cs + i, 8) != Range(mem[..], ct + i, 8)
  {
    i := 0;
    while count - i >= 8
      invariant i <= count && Range(mem[..], cs, i) == Range(mem[..], ct, i)
    {
      var differ := WordsDiffer(Range(mem[..], cs + i, 8), Range(mem[..], ct + i, 8), little);
      if differ {
        break;
      }
      RangeAppend(mem[..], cs, i, 8);
      RangeAppend(mem[..], ct, i, 8);
      i := i + 8;
    }
  }

  method ByteDifference(x: bv8, y: bv8) returns (d: int)
    ensures d == x as int - y as int && (d == 0 <==> x == y)
  {
    SameByte(x, y);
    d := x as int - y as int;
  }

  /** fast is the efficient-unaligned build; little is the byte order of word loads. */
  method Memcmp(mem: array<bv8>, cs: nat, ct: nat, count: nat, fast: bool, little: bool) returns (res: int)
    requires cs + count <= mem.Length && ct + count <= mem.Length
    ensures res == Difference(Range(mem[..], cs, count), Range(mem[..], ct, count))
  {
    var i := 0;
    if fast {
      i := SkipEqualWords(mem, cs, ct, count, little);
    }
    res := 0;
    while i < count
      invariant i <= count && Range(mem[..], cs, i) == Range(mem[..], ct, i) && res == 0
    {
      res := ByteDifference(mem[cs + i], mem[ct + i]);
      if res != 0 {
        break;
      }
      RangeAppend(mem[..], cs, i, 1);
      RangeAppend(mem[..], ct, i, 1);
      i := i + 1;
    }
    DifferenceInMemory(mem[..], cs, ct, count, i);
  }

  lemma DifferenceInMemory(m: seq<bv8>, cs: nat, ct: nat, count: nat, k: nat)
    requires cs + count <= |m| && ct + count <= |m| && k <= count
    requires Range(m, cs, k) == Range(m, ct, k) && (k < count ==> m[cs + k] != m[ct + k])
    ensures Difference(Range(m, cs, count), Range(m, ct, count)) ==
      if k < count then m[cs + k] as int - m[ct + k] as int else 0
  {
    var a, b := Range(m, cs, count), Range(m, ct, count);
    RangeOfRange(m, cs, count, 0, k);
    RangeOfRange(m, ct, count, 0, k);
    DifferenceAt(a, b, k);
  }

  // ----- memchr_inv

  /** The first index holding a byte other than v, or |b|. */
  function FirstUnlike(b: seq<bv8>, v: bv8): (k: nat)
    ensures k <= |b| && (forall i | 0 <= i < k :: b[i] == v) && (k < |b| ==> b[k] != v)
  {
    if b == [] || b[0] != v then 0
    else
      var k := 1 + FirstUnlike(b[1..], v);
      assert forall i | 0 < i < k :: b[i] == b[1..][i - 1];
      k
  }

  lemma FirstUnlikeAt(b: seq<bv8>, v: bv8, k: nat)
    requires k <= |b| && (forall i | 0 <= i < k :: b[i] == v) && (k < |b| ==> b[k] != v)
    ensures FirstUnlike(b, v) == k
  {}

  const U32: nat := 0x1_0000_0000

  function Prefix(addr: nat): nat {
    (8 - addr % 8) % 8
  }

  /** How many bytes the scan looks at; words is an unsigned int, so the word count wraps. */
  function Covered(addr: nat, bytes: nat): (n: nat)
    ensures n <= bytes
  {
    if bytes <= 16 then bytes
    else
      var rest := bytes - Prefix(addr);
      Prefix(addr) + 8 * ((rest / 8) % U32) + rest % 8
  }

  function Found(b: seq<bv8>, v: bv8): Option<nat> {
    var k := FirstUnlike(b, v);
    if k < |b| then Some(k) else None
  }

  /** The naive scan of the first n bytes of a range. */
  function Scan(b: seq<bv8>, v: bv8, n: nat): Option<nat>
    requires n <= |b|
  {
    Found(b[..n], v)
  }

  lemma CoveredAll(addr: nat, bytes: nat)
    ensures Covered(addr, bytes) == bytes <==> bytes <= 16 || (bytes - (8 - addr % 8) % 8) / 8 < 0x1_0000_0000
    ensures bytes < 0x8_0000_0000 ==> Covered(addr, bytes) == bytes
  {
    if bytes > 16 {
      var w := (bytes - Prefix(addr)) / 8;
      assert w < U32 ==> w % U32 == w;
    }
  }

  /** The scan finds the first other byte in every range of a given length exactly when the word
      count fits in an unsigned int. */
  lemma ScanIsNaiveIff(addr: nat, bytes: nat, v: bv8)
    ensures (forall b: seq<bv8> | |b| == bytes :: Scan(b, v, Covered(addr, bytes)) == Found(b, v)) <==>
      bytes <= 16 || (bytes - (8 - addr % 8) % 8) / 8 < 0x1_0000_0000
  {
    CoveredAll(addr, bytes);
    if Covered(addr, bytes) == bytes {
      forall b: seq<bv8> | |b| == bytes ensures Scan(b, v, Covered(addr, bytes)) == Found(b, v) {
        assert b[..bytes] == b;
      }
    } else {
      var b := Missed(bytes, v);
      MissedByte(addr, bytes, v);
      assert Scan(b, v, Covered(addr, bytes)) != Found(b, v);
    }
  }

  /** A range whose only other byte is its last one. */
  function Missed(bytes: nat, v: bv8): (b: seq<bv8>)
    ensures |b| == bytes
  {
    seq(bytes, i => if i == bytes - 1 then v + 1 else v)
  }

  lemma MissedByte(addr: nat, bytes: nat, v: bv8)
    requires Covered(addr, bytes) < bytes
    ensures Scan(Missed(bytes, v), v, Covered(addr, bytes)) == None && Found(Missed(bytes, v), v) == Some(bytes - 1)
  {
    var b := Missed(bytes, v);
    OtherByte(v);
    FoundUnlike(b, v, bytes - 1);
    FoundNone(b[..Covered(addr, bytes)], v);
  }

  lemma OtherByte(v: bv8)
    ensures v + 1 != v
  {}

  /** At 2^35 bytes from an aligned start the word count wraps to zero and nothing is looked at. */
  lemma WrapExample(v: bv8)
    ensures Covered(0, 0x8_0000_0000) == 0
    ensures Scan(Missed(0x8_0000_0000, v), v, Covered(0, 0x8_0000_0000)) == None
    ensures Found(Missed(0x8_0000_0000, v), v) == Some(0x7_FFFF_FFFF)
  {
    MissedByte(0, 0x8_0000_0000, v);
  }

  /** Every byte of b below n is v. */
  predicate AllBelow(b: seq<bv8>, v: bv8, n: nat)
    requires n <= |b|
  {
    forall i | 0 <= i < n :: b[i] == v
  }

  lemma FoundUnlike(b: seq<bv8>, v: bv8, k: nat)
    requires k < |b| && AllBelow(b, v, k) && b[k] != v
    ensures Found(b, v) == Some(k)
  {
    FirstUnlikeAt(b, v, k);
  }

  lemma FoundNone(b: seq<bv8>, v: bv8)
    requires AllBelow(b, v, |b|)
    ensures Found(b, v) == None
  {
    FirstUnlikeAt(b, v, |b|);
  }

  /** Found offsets relative to a later start. */
  function After(skipped: nat, r: Option<nat>): Option<nat> {
    match r
    case None => None
    case Some(k) => Some(skipped + k)
  }

  lemma FoundAfter(b: seq<bv8>, v: bv8, n: nat)
    requires n <= |b| && AllBelow(b, v, n)
    ensures Found(b, v) == After(n, Found(b[n..], v))
  {
    FirstUnlikeAt(b, v, n + FirstUnlike(b[n..], v));
  }

  lemma FoundWithin(b: seq<bv8>, v: bv8, n: nat)
    requires n <= |b| && Found(b[..n], v).Some?
    ensures Found(b, v) == Found(b[..n], v)
  {
    FirstUnlikeAt(b, v, FirstUnlike(b[..n], v));
  }

  lemma FoundIff(b: seq<bv8>, v: bv8)
    ensures Found(b, v).Some? <==> exists i | 0 <= i < |b| :: b[i] != v
  {}

  lemma NotFoundAt(b: seq<bv8>, v: bv8, at: nat, n: nat)
    requires at + n <= |b| && AllBelow(b, v, at) && Found(Range(b, at, n), v) == None
    ensures AllBelow(b, v, at + n)
  {}

  /** Checking n more bytes after at matching ones settles the scan if they hold another byte or
      if they are the last ones to look at. */
  lemma ScanAt(b: seq<bv8>, v: bv8, covered: nat, at: nat, n: nat)
    requires at + n <= covered <= |b| && AllBelow(b, v, at)
    requires Found(Range(b, at, n), v).Some? || at + n == covered
    ensures Scan(b, v, covered) == After(at, Found(Range(b, at, n), v))
  {
    var c := b[..covered];
    FoundAfter(c, v, at);
    assert c[at..][..n] == Range(b, at, n);
    if Found(Range(b, at, n), v).Some? {
      FoundWithin(c[at..], v, n);
    } else {
      assert c[at..] == c[at..][..n];
    }
  }

  method CheckBytes8(buf: array<bv8>, start: nat, value: bv8, bytes: nat) returns (r: Option<nat>)
    requires start + bytes <= buf.Length
    ensures r == Found(Range(buf[..], start, bytes), value)
  {
    ghost var b := Range(buf[..], start, bytes);
    var s, left := 0, bytes;
    while left > 0
      invariant s + left == bytes && AllBelow(b, value, s)
    {
      if buf[start + s] != value {
        FoundUnlike(b, value, s);
        return Some(s);
      }
      s, left := s + 1, left - 1;
    }
    FoundNone(b, value);
    return None;
  }

  /** Every word load, by address, is eight-byte aligned and inside the range. */
  predicate LoadsAligned(loads: seq<nat>, addr: nat, bytes: nat) {
    forall l | l in loads :: l % 8 == 0 && addr <= l && l + 8 <= addr + bytes
  }

  lemma CoveredParts(addr: nat, bytes: nat)
    requires bytes > 16
    ensures (addr + Prefix(addr)) % 8 == 0 && Prefix(addr) < 8
    ensures var rest := bytes - Prefix(addr);
      Prefix(addr) + 8 * ((rest / 8) % U32) + rest % 8 == Covered(addr, bytes) <= bytes
  {}

  /** One word: compared as a whole, and byte by byte only when it differs. */
  method CheckWord(buf: array<bv8>, s: nat, fill: FilledWord) returns (r: Option<nat>)
    requires s + 8 <= buf.Length
    ensures r == Found(Range(buf[..], s, 8), fill.value)
  {
    var unlike := UnlikeFilled(Range(buf[..], s, 8), fill);
    FoundIff(Range(buf[..], s, 8), fill.value);
    if unlike {
      r := CheckBytes8(buf, s, fill.value, 8);
    } else {
      r := None;
    }
  }

  /** The word loop and the remainder, from the first aligned address on. */
  method ScanWords(buf: array<bv8>, ghost addr: nat, start: nat, words: nat, tail: nat, fill: FilledWord)
    returns (r: Option<nat>, ghost loads: seq<nat>)
    requires start + 8 * words + tail <= buf.Length && (addr + start) % 8 == 0
    requires AllBelow(buf[..], fill.value, start)
    ensures r == Scan(buf[..], fill.value, start + 8 * words + tail)
    ensures LoadsAligned(loads, addr, buf.Length)
  {
    var value := fill.value;
    ghost var b, covered := buf[..], start + 8 * words + tail;
    var s, left := start, words;
    loads := [];
    while left > 0
      invariant left >= 0 && s + 8 * left + tail == covered && (addr + s) % 8 == 0 && AllBelow(b, value, s)
      invariant LoadsAligned(loads, addr, buf.Length)
    {
      loads := loads + [addr + s];
      r := CheckWord(buf, s, fill);
      if r.Some? {
        ScanAt(b, value, covered, s, 8);
        r := After(s, r);
        return;
      }
      NotFoundAt(b, value, s, 8);
      s, left := s + 8, left - 1;
    }
    r := CheckBytes8(buf, s, value, tail);
    ScanAt(b, value, covered, s, tail);
    r := After(s, r);
  }

  /** The bytes before the first aligned address. */
  method CheckPrefix(buf: array<bv8>, addr: nat, value: bv8) returns (prefix: nat, r: Option<nat>)
    requires buf.Length >= 8
    ensures prefix == Prefix(addr) && r == Found(Range(buf[..], 0, prefix), value)
  {
    prefix, r := addr % 8, None;
    if prefix != 0 {
      prefix := 8 - prefix;
      r := CheckBytes8(buf, 0, value, prefix);
    } else {
      FoundNone(Range(buf[..], 0, 0), value);
    }
  }

  /** What is left behind the prefix; the word count is cut to an unsigned int. */
  method CountWords(addr: nat, bytes: nat, prefix: nat) returns (words: nat, tail: nat)
    requires bytes > 16 && prefix == Prefix(addr)
    ensures (addr + prefix) % 8 == 0 && prefix + 8 * words + tail == Covered(addr, bytes) <= bytes
  {
    CoveredParts(addr, bytes);
    var rest := bytes - prefix;
    words, tail := (rest / 8) % U32, rest % 8;
  }

  /** buf is the area, addr its address, value the u8 the int argument is cut to; the result is
      the offset of the byte found. */
  method MemchrInv(buf: array<bv8>, addr: nat, value: bv8, how: Replication, little: bool)
    returns (r: Option<nat>, ghost loads: seq<nat>)
    ensures r == Scan(buf[..], value, Covered(addr, buf.Length))
    ensures LoadsAligned(loads, addr, buf.Length)
  {
    ghost var b, covered := buf[..], Covered(addr, buf.Length);
    var bytes := buf.Length;
    loads := [];
    if bytes <= 16 {
      r := CheckBytes8(buf, 0, value, bytes);
      ScanAt(b, value, bytes, 0, bytes);
      return;
    }
    var fill := FillWord(value, how, little);
    var prefix;
    prefix, r := CheckPrefix(buf, addr, value);
    var words, tail := CountWords(addr, bytes, prefix);
    if r.Some? {
      ScanAt(b, value, covered, 0, prefix);
      return;
    }
    NotFoundAt(b, value, 0, prefix);
    r, loads := ScanWords(buf, addr, prefix, words, tail, fill);
  }
}
