/** sized_strscpy: the word-at-a-time copy against its byte-by-byte meaning. */
module Strscpy {
  import opened Words
  import opened Memory

  const E2BIG := 7
  const INT_MAX := 0x7FFF_FFFF

  /** How the build lets the copy read words. */
  datatype Access = DcacheWord | EfficientUnaligned(pageSize: nat) | AlignedOnly

  /** The initial max: how many bytes may be copied by words. */
  function StartMax(access: Access, kmsan: bool, destAddr: nat, srcAddr: nat, count: nat): (m: nat)
    requires access.EfficientUnaligned? ==> access.pageSize > 0
    ensures m <= count
  {
    if kmsan then 0 else
    match access
    case DcacheWord => count
    case EfficientUnaligned(page) =>
      if srcAddr % 8 != 0 && page - srcAddr % page < count then page - srcAddr % page else count
    case AlignedOnly =>
      if destAddr % 8 != 0 || srcAddr % 8 != 0 then 0 else count
  }

  /** Where the stored bytes end: a word store also clears the rest of the word holding the NUL. */
  function StoredEnd(n: nat, max: nat): nat {
    if n < 8 * (max / 8) then 8 * (n / 8) + 8 else n + 1
  }

  /** The bytes the copy leaves at dest. */
  function Image(src: seq<bv8>, count: nat, max: nat): seq<bv8>
    requires 0 < count && (0 in src || count <= |src|)
  {
    var n := ZeroIndex(src);
    if n < count then src[..n] + Zeros(StoredEnd(n, max) - n)
    else src[..count - 1] + [0]
  }

  function Result(src: seq<bv8>, count: nat): int {
    if ZeroIndex(src) < count then ZeroIndex(src) else -E2BIG
  }

  /** The byte-by-byte meaning: dest holds the longest prefix of the string that fits, NUL-terminated,
      and every stored byte after that NUL is zero, so nothing past src's own NUL is ever stored. */
  lemma ImageIsTruncatedString(src: seq<bv8>, count: nat, max: nat)
    requires 0 < count && max <= count && (0 in src || count <= |src|)
    ensures var n := if ZeroIndex(src) < count then ZeroIndex(src) else count - 1;
      var image := Image(src, count, max);
      n < |image| <= count && image[..n] == src[..n] && ZeroIndex(image) == n &&
      forall i | n <= i < |image| :: image[i] == 0
  {
    var n := if ZeroIndex(src) < count then ZeroIndex(src) else count - 1;
    assert src[..n] == src[..ZeroIndex(src)][..n];
    var z := if ZeroIndex(src) < count then StoredEnd(n, max) - n else 1;
    StoredEndFits(n, max, count);
    PaddedString(src[..n], z);
    assert Image(src, count, max) == src[..n] + Zeros(z);
  }

  lemma StoredEndFits(n: nat, max: nat, count: nat)
    requires n < count && max <= count
    ensures n < StoredEnd(n, max) <= count
  {}

  lemma PaddedString(p: seq<bv8>, z: nat)
    requires 0 !in p && z > 0
    ensures var b := p + Zeros(z);
      ZeroIndex(b) == |p| && b[..|p|] == p && forall i | |p| <= i < |b| :: b[i] == 0
  {
    ZeroIndexIs(p + Zeros(z), |p|);
  }

  /** Every start value of max gives the same terminated string, so the configurations agree. */
  lemma VariantsAgree(src: seq<bv8>, count: nat, max: nat, max': nat)
    requires 0 < count && max <= count && max' <= count && (0 in src || count <= |src|)
    ensures var a, b := Image(src, count, max), Image(src, count, max');
      ZeroIndex(a) == ZeroIndex(b) < |a| && ZeroIndex(b) < |b| &&
      a[..ZeroIndex(a) + 1] == b[..ZeroIndex(b) + 1]
  {
    ImageIsTruncatedString(src, count, max);
    ImageIsTruncatedString(src, count, max');
  }

  /** What follows src's first NUL changes neither the return value nor any stored byte. */
  lemma TailIrrelevant(s: seq<bv8>, tail: seq<bv8>, tail': seq<bv8>, count: nat, max: nat)
    requires 0 < count && IsCString(s)
    ensures Result(s + tail, count) == Result(s + tail', count)
    ensures Image(s + tail, count, max) == Image(s + tail', count, max)
  {
    var n := |s| - 1;
    assert s[..n] == (s + tail)[..n] == (s + tail')[..n];
    ZeroIndexIs(s + tail, n);
    ZeroIndexIs(s + tail', n);
    if n >= count {
      assert (s + tail)[..count - 1] == (s + tail')[..count - 1];
    }
  }

  /** Where src may only be read page by page, the condition on the loads keeps each within one page. */
  lemma LoadsStayInPage(page: nat, srcAddr: nat, load: nat)
    requires page > 0 && page % 8 == 0 && load % 8 == 0
    requires srcAddr % 8 == 0 || srcAddr % page + load + 8 <= page
    ensures (srcAddr + load) / page == (srcAddr + load + 7) / page
  {
    if srcAddr % 8 == 0 {
      AlignedInPage(page, srcAddr + load);
    } else {
      UnalignedInPage(page, srcAddr, load);
    }
  }

  lemma AlignedInPage(page: nat, a: nat)
    requires page > 0 && page % 8 == 0 && a % 8 == 0
    ensures a / page == (a + 7) / page
  {
    AlignedWordFits(a, page);
    SamePage(a, page);
  }

  lemma UnalignedInPage(page: nat, a: nat, load: nat)
    requires page > 0 && load + 8 <= page - a % page
    ensures (a + load) / page == (a + load + 7) / page
  {
    OffsetInPage(a, load, page);
    SamePage(a + load, page);
  }

  lemma AlignedWordFits(a: nat, page: nat)
    requires page > 0 && page % 8 == 0 && a % 8 == 0
    ensures a % page + 7 < page
  {
    var p := page / 8;
    assert a == page * (a / page) + a % page;
    assert a % page == 8 * (a / 8 - p * (a / page));
  }

  lemma OffsetInPage(a: nat, off: nat, page: nat)
    requires page > 0 && a % page + off < page
    ensures (a + off) % page == a % page + off
  {
    assert a + off == page * (a / page) + (a % page + off);
    DivMod(page, a / page, a % page + off);
  }

  lemma SamePage(a: nat, page: nat)
    requires page > 0 && a % page + 7 < page
    ensures a / page == (a + 7) / page
  {
    assert a + 7 == page * (a / page) + (a % page + 7);
    DivMod(page, a / page, a % page + 7);
  }

  lemma DivMod(page: nat, q: nat, r: nat)
    requires r < page
    ensures (page * q + r) / page == q && (page * q + r) % page == r
  {
    var d := (page * q + r) / page;
    assert d < q ==> page * d <= page * (q - 1);
    assert q < d ==> page * (q + 1) <= page * d;
  }

  /** What a word load sees: the bytes of src, and past its end whatever is there. */
  function Seen(src: seq<bv8>, beyond: nat -> bv8, off: nat): (b: seq<bv8>)
    ensures |b| == 8
  {
    seq(8, i requires 0 <= i => if off + i < |src| then src[off + i] else beyond(off + i))
  }

  /** A load with no NUL in it saw only bytes of src. */
  lemma NoNulInWord(src: seq<bv8>, beyond: nat -> bv8, res: nat, count: nat)
    requires res <= |src| && 0 !in src[..res] && res + 8 <= count && (0 in src || count <= |src|)
    requires 0 !in Seen(src, beyond, res)
    ensures res + 8 <= |src| && Seen(src, beyond, res) == src[res..res + 8] && 0 !in src[..res + 8]
    ensures src[..res] + Seen(src, beyond, res) == src[..res + 8]
  {
    var word := Seen(src, beyond, res);
    forall i | res <= i < res + 8 ensures i < |src| ==> src[i] != 0 {
      assert word[i - res] in word;
    }
  }

  /** The word agrees with src wherever both have a byte. */
  predicate SeesAt(word: seq<bv8>, src: seq<bv8>, res: nat) {
    |word| == 8 && forall i | 0 <= i < 8 && res + i < |src| :: word[i] == src[res + i]
  }

  lemma NoNulBefore(src: seq<bv8>, word: seq<bv8>, res: nat, k: nat)
    requires SeesAt(word, src, res) && res <= |src| && 0 !in src[..res] && k < 8 && 0 !in word[..k]
    ensures res + k <= |src| ==> 0 !in src[..res + k] && src[..res + k] == src[..res] + word[..k]
    ensures res + k >= |src| ==> 0 !in src
  {
    forall i | 0 <= i < res + k && i < |src| ensures src[i] != 0 {
      if i < res {
        assert src[i] == src[..res][i];
      } else {
        assert src[i] == word[..k][i - res];
      }
    }
  }

  /** A load with a NUL in it has src's first NUL where its own first NUL is. */
  lemma FirstNulInWord(src: seq<bv8>, word: seq<bv8>, res: nat, count: nat)
    requires SeesAt(word, src, res)
    requires res <= |src| && 0 !in src[..res] && res + 8 <= count && (0 in src || count <= |src|)
    requires 0 in word
    ensures var k := ZeroIndex(word);
      k < 8 && res + k < |src| && ZeroIndex(src) == res + k && src[..res + k] == src[..res] + word[..k]
  {
    var k := ZeroIndex(word);
    ZeroIndexFound(word);
    NoNulBefore(src, word, res, k);
    ZeroIndexIs(src, res + k);
  }

  lemma WordEnd(res: nat, k: nat, max: nat)
    requires res % 8 == 0 && k < 8 && res + 8 <= max
    ensures StoredEnd(res + k, max) == res + 8
  {}

  lemma Associate(a: seq<bv8>, b: seq<bv8>, c: seq<bv8>)
    ensures a + b + c == a + (b + c)
  {}

  lemma FoundInWord(src: seq<bv8>, word: seq<bv8>, res: nat, count: nat, max: nat)
    requires SeesAt(word, src, res) && res % 8 == 0 && res <= |src| && 0 !in src[..res]
    requires res + 8 <= max <= count && (0 in src || count <= |src|) && 0 in word
    ensures var k := ZeroIndex(word);
      k < 8 && ZeroIndex(src) == res + k == Result(src, count) &&
      Image(src, count, max) == src[..res] + ClearFrom(word, k)
  {
    var k := ZeroIndex(word);
    FirstNulInWord(src, word, res, count);
    WordEnd(res, k, max);
    ImageInWord(src, count, max, res + k, 8 - k);
    Associate(src[..res], word[..k], Zeros(8 - k));
  }

  lemma SeenSees(src: seq<bv8>, beyond: nat -> bv8, res: nat)
    ensures SeesAt(Seen(src, beyond, res), src, res)
  {}

  lemma ImageInWord(src: seq<bv8>, count: nat, max: nat, n: nat, z: nat)
    requires n == ZeroIndex(src) < |src| && n < count && StoredEnd(n, max) == n + z
    ensures Result(src, count) == n && Image(src, count, max) == src[..n] + Zeros(z)
  {}

  lemma TruncatedImage(src: seq<bv8>, beyond: nat -> bv8, res: nat, count: nat, max: nat)
    requires res + 8 == count <= |src| && 0 !in src[..count]
    requires Seen(src, beyond, res) == src[res..res + 8]
    ensures Result(src, count) == -E2BIG
    ensures Image(src, count, max) == src[..res] + ClearFrom(Seen(src, beyond, res), 7)
  {
    FirstNulFrom(src, count);
  }

  lemma FirstNulFrom(src: seq<bv8>, k: nat)
    requires k <= |src| && 0 !in src[..k]
    ensures k <= ZeroIndex(src)
  {}

  lemma StayInside(src: seq<bv8>, res: nat, count: nat)
    requires res < count && res <= |src| && 0 !in src[..res] && (0 in src || count <= |src|)
    ensures res < |src|
  {}

  lemma NulAt(src: seq<bv8>, n: nat, count: nat, max: nat)
    requires n < count && n < |src| && 0 !in src[..n] && src[n] == 0 && 8 * (max / 8) <= n
    ensures Result(src, count) == n && Image(src, count, max) == src[..n] + [0]
  {
    ZeroIndexIs(src, n);
  }

  lemma NoNulAt(src: seq<bv8>, n: nat, count: nat, max: nat)
    requires n + 1 == count <= |src| && 0 !in src[..n] && src[n] != 0
    ensures Result(src, count) == -E2BIG && Image(src, count, max) == src[..n] + [0]
  {
    FirstNulFrom(src, count);
  }

  /** The offsets 0, 8, 16 and so on, in order. */
  predicate Consecutive(loads: seq<nat>) {
    forall i | 0 <= i < |loads| :: loads[i] == 8 * i
  }

  ghost function RecordLoad(loads: seq<nat>, load: nat): (r: seq<nat>)
    requires Consecutive(loads) && load == 8 * |loads|
    ensures Consecutive(r) && r == loads + [load]
  {
    loads + [load]
  }

  /** How many words are read: up to the one holding the first NUL, as far as max allows. */
  function WordsRead(n: nat, max: nat): nat {
    if n / 8 < max / 8 then n / 8 + 1 else max / 8
  }

  lemma ReadThrough(n: nat, max: nat, w: nat)
    requires w > 0 && 8 * w <= max && 8 * w - 8 <= n < 8 * w
    ensures WordsRead(n, max) == w
  {}

  lemma ReadAll(src: seq<bv8>, max: nat, w: nat, res: nat)
    requires res == 8 * w && res <= max < res + 8 && res <= |src| && 0 !in src[..res]
    ensures WordsRead(ZeroIndex(src), max) == w
  {
    FirstNulFrom(src, res);
  }

  lemma LastWord(src: seq<bv8>, count: nat, max: nat, w: nat)
    requires w > 0 && 8 * w <= max <= count
    requires 8 * w - 8 <= ZeroIndex(src) < 8 * w || (8 * w == count && count <= |src| && 0 !in src[..count])
    ensures WordsRead(ZeroIndex(src), max) == w
  {
    if ZeroIndex(src) < 8 * w && 8 * w - 8 <= ZeroIndex(src) {
      ReadThrough(ZeroIndex(src), max, w);
    } else {
      ReadAll(src, max, w, count);
    }
  }

  /** The loads are the multiples of eight not past the first NUL whose words end within max. */
  lemma LoadsExactly(loads: seq<nat>, n: nat, max: nat, l: nat)
    requires Consecutive(loads) && |loads| == WordsRead(n, max)
    ensures l in loads <==> l % 8 == 0 && l + 8 <= max && l <= n
  {
    if l % 8 == 0 && l / 8 < |loads| {
      assert loads[l / 8] == l;
    }
  }

  /** One word: it holds the first NUL, it is the last that fits, or it is copied whole. */
  method CopyWord(mem: array<bv8>, ghost m0: seq<bv8>, dest: nat, src: seq<bv8>, beyond: nat -> bv8, res: nat,
                  left: nat, ghost count: nat, ghost max0: nat)
    returns (done: bool, r: int)
    requires dest + count <= mem.Length == |m0| && (0 in src || count <= |src|)
    requires res % 8 == 0 && res + 8 <= max0 <= count && res + left == count
    requires res <= |src| && 0 !in src[..res] && mem[..] == Splice(m0, dest, src[..res])
    modifies mem
    ensures done ==> r == Result(src, count) && |Image(src, count, max0)| <= count
    ensures done ==> mem[..] == Splice(m0, dest, Image(src, count, max0))
    ensures done ==> res <= ZeroIndex(src) < res + 8 || (left == 8 && count <= |src| && 0 !in src[..count])
    ensures !done ==> left > 8 && res + 8 <= |src| && 0 !in src[..res + 8]
    ensures !done ==> mem[..] == Splice(m0, dest, src[..res + 8])
  {
    var word := Seen(src, beyond, res);
    var found, stored, k := ProbeWord(word);
    if found {
      SeenSees(src, beyond, res);
      FoundInWord(src, word, res, count, max0);
      StoreNext(mem, m0, dest, src[..res], dest + res, stored);
      return true, res + k;
    }
    NoNulInWord(src, beyond, res, count);
    if left == 8 {
      stored := TruncateWord(word);
      TruncatedImage(src, beyond, res, count, max0);
      StoreNext(mem, m0, dest, src[..res], dest + res, stored);
      return true, -E2BIG;
    }
    StoreNext(mem, m0, dest, src[..res], dest + res, word);
    done, r := false, 0;
  }

  /** The word loop: either it finished the copy, or it copied res bytes with no NUL among them. */
  method CopyWords(mem: array<bv8>, dest: nat, src: seq<bv8>, beyond: nat -> bv8, count: nat, max0: nat)
    returns (done: bool, r: int, res: nat, left: nat, ghost loads: seq<nat>)
    requires 0 < count && max0 <= count && dest + count <= mem.Length && (0 in src || count <= |src|)
    modifies mem
    ensures Consecutive(loads) && |loads| == WordsRead(ZeroIndex(src), max0)
    ensures done ==> r == Result(src, count)
    ensures done ==> |Image(src, count, max0)| <= count
    ensures done ==> mem[..] == Splice(old(mem[..]), dest, Image(src, count, max0))
    ensures !done ==> res + left == count && left > 0 && 8 * (max0 / 8) <= res
    ensures !done ==> res <= |src| && 0 !in src[..res]
    ensures !done ==> mem[..] == Splice(old(mem[..]), dest, src[..res])
  {
    done, r, res, left, loads := false, 0, 0, count, [];
    var max := max0;
    ghost var m0 := mem[..];
    while max >= 8
      invariant res == 8 * |loads| && res + max == max0 && res + left == count && left > 0
      invariant res <= |src| && 0 !in src[..res] && Consecutive(loads)
      invariant mem[..] == Splice(m0, dest, src[..res])
    {
      done, r := CopyWord(mem, m0, dest, src, beyond, res, left, count, max0);
      loads := RecordLoad(loads, res);
      if done {
        LastWord(src, count, max0, |loads|);
        return;
      }
      left := left - 8;
      res := res + 8;
      max := max - 8;
    }
    ReadAll(src, max0, |loads|, res);
    done := false;
  }

  /** The byte loop and the forced terminator. */
  method CopyBytes(mem: array<bv8>, dest: nat, src: seq<bv8>, count: nat, ghost max0: nat, start: nat,
                   ghost m0: seq<bv8>)
    returns (r: int)
    requires start < count && dest + count <= mem.Length == |m0| && (0 in src || count <= |src|)
    requires 8 * (max0 / 8) <= start <= |src| && 0 !in src[..start]
    requires mem[..] == Splice(m0, dest, src[..start])
    modifies mem
    ensures r == Result(src, count)
    ensures |Image(src, count, max0)| <= count
    ensures mem[..] == Splice(m0, dest, Image(src, count, max0))
  {
    var res, left := start, count - start;
    while left > 1
      invariant res + left == count && left > 0 && start <= res <= |src| && 0 !in src[..res]
      invariant mem[..] == Splice(m0, dest, src[..res])
    {
      StayInside(src, res, count);
      var c := src[res];
      StoreNext(mem, m0, dest, src[..res], dest + res, [c]);
      if c == 0 {
        NulAt(src, res, count, max0);
        return res;
      }
      assert src[..res] + [c] == src[..res + 1];
      res := res + 1;
      left := left - 1;
    }
    StayInside(src, res, count);
    StoreNext(mem, m0, dest, src[..res], dest + res, [0]);
    if src[res] == 0 {
      NulAt(src, res, count, max0);
    } else {
      NoNulAt(src, res, count, max0);
    }
    r := if src[res] != 0 then -E2BIG else res;
  }

  /** In the terms of each build: the word at offset l may be read. */
  predicate WordFits(access: Access, kmsan: bool, destAddr: nat, srcAddr: nat, l: nat)
    requires access.EfficientUnaligned? ==> access.pageSize > 0
  {
    !kmsan &&
    match access
    case DcacheWord => true
    case EfficientUnaligned(page) => srcAddr % 8 == 0 || srcAddr % page + l + 8 <= page
    case AlignedOnly => srcAddr % 8 == 0 && destAddr % 8 == 0
  }

  lemma WordAllowed(access: Access, kmsan: bool, destAddr: nat, srcAddr: nat, count: nat, l: nat)
    requires access.EfficientUnaligned? ==> access.pageSize > 0
    requires l % 8 == 0
    ensures l + 8 <= StartMax(access, kmsan, destAddr, srcAddr, count) <==>
      l + 8 <= count && WordFits(access, kmsan, destAddr, srcAddr, l)
  {}

  lemma LoadsAllowed(access: Access, kmsan: bool, destAddr: nat, srcAddr: nat, count: nat, n: nat, loads: seq<nat>)
    requires access.EfficientUnaligned? ==> access.pageSize > 0
    requires Consecutive(loads) && |loads| == WordsRead(n, StartMax(access, kmsan, destAddr, srcAddr, count))
    ensures forall l: nat :: l in loads <==>
      l % 8 == 0 && l + 8 <= count && l <= n && WordFits(access, kmsan, destAddr, srcAddr, l)
  {
    var max := StartMax(access, kmsan, destAddr, srcAddr, count);
    forall l: nat ensures l in loads <==>
      l % 8 == 0 && l + 8 <= count && l <= n && WordFits(access, kmsan, destAddr, srcAddr, l)
    {
      LoadsExactly(loads, n, max, l);
      if l % 8 == 0 {
        WordAllowed(access, kmsan, destAddr, srcAddr, count, l);
      }
    }
  }

  lemma EndByLoads(n: nat, max: nat, loads: seq<nat>)
    requires Consecutive(loads) && |loads| == WordsRead(n, max)
    ensures StoredEnd(n, max) == if 8 * (n / 8) in loads then 8 * (n / 8) + 8 else n + 1
  {
    LoadsExactly(loads, n, max, 8 * (n / 8));
  }

  /** n is the first NUL, or past the end of a source without one. The word loads are exactly those the
      build allows up to the word holding the NUL, and a word that holds it is stored whole, cleared
      behind it; nothing else is stored past the terminator, nor past count. */
  method SizedStrscpy(mem: array<bv8>, dest: nat, src: seq<bv8>, beyond: nat -> bv8, count: nat,
                      access: Access, kmsan: bool, destAddr: nat, srcAddr: nat)
    returns (r: int, ghost loads: seq<nat>)
    requires 0 < count <= 0x7FFF_FFFF ==> dest + count <= mem.Length && (0 in src || count <= |src|)
    requires access.EfficientUnaligned? ==> access.pageSize > 0
    modifies mem
    ensures !(0 < count <= 0x7FFF_FFFF) ==> r == -7 && mem[..] == old(mem[..]) && loads == []
    ensures 0 < count <= 0x7FFF_FFFF ==>
              forall l: nat :: l in loads <==>
                !kmsan && l % 8 == 0 && l + 8 <= count && l <= ZeroIndex(src) &&
                match access
                case DcacheWord => true
                case EfficientUnaligned(page) => srcAddr % 8 == 0 || srcAddr % page + l + 8 <= page
                case AlignedOnly => srcAddr % 8 == 0 && destAddr % 8 == 0
    ensures 0 < count <= 0x7FFF_FFFF ==>
              var n := ZeroIndex(src);
              if n < count then
                var end := if 8 * (n / 8) in loads then 8 * (n / 8) + 8 else n + 1;
                r == n && end <= count && mem[..] == Splice(old(mem[..]), dest, src[..n] + Zeros(end - n))
              else r == -7 && mem[..] == Splice(old(mem[..]), dest, src[..count - 1] + [0])
  {
    loads := [];
    if count == 0 || count > INT_MAX {
      return -E2BIG, loads;
    }
    var max := StartMax(access, kmsan, destAddr, srcAddr, count);
    r, loads := CopyString(mem, dest, src, beyond, count, max);
    LoadsAllowed(access, kmsan, destAddr, srcAddr, count, ZeroIndex(src), loads);
    EndByLoads(ZeroIndex(src), max, loads);
  }

  /** Both loops, from a given max on. */
  method CopyString(mem: array<bv8>, dest: nat, src: seq<bv8>, beyond: nat -> bv8, count: nat, max: nat)
    returns (r: int, ghost loads: seq<nat>)
    requires 0 < count && max <= count && dest + count <= mem.Length && (0 in src || count <= |src|)
    modifies mem
    ensures Consecutive(loads) && |loads| == WordsRead(ZeroIndex(src), max)
    ensures r == Result(src, count)
    ensures |Image(src, count, max)| <= count && mem[..] == Splice(old(mem[..]), dest, Image(src, count, max))
  {
    ghost var m0 := mem[..];
    var done, res, left;
    done, r, res, left, loads := CopyWords(mem, dest, src, beyond, count, max);
    if !done {
      r := CopyBytes(mem, dest, src, count, max, res, m0);
    }
  }
}
