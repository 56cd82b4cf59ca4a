/** Byte memory as an array, and what writing a run of bytes does to it. */
module Memory {
  import opened Words

  /** Memory m with the bytes b written at offset off. */
  function Splice(m: seq<bv8>, off: nat, b: seq<bv8>): (r: seq<bv8>)
    requires off + |b| <= |m|
    ensures |r| == |m|
  {
    m[..off] + b + m[off + |b|..]
  }

  /** Writing b and then c right after it is writing b + c. */
  lemma SpliceAppend(m: seq<bv8>, off: nat, b: seq<bv8>, c: seq<bv8>)
    requires off + |b| + |c| <= |m|
    ensures Splice(Splice(m, off, b), off + |b|, c) == Splice(m, off, b + c)
  {}

  /** The n bytes of m from offset off on. */
  function Range(m: seq<bv8>, off: nat, n: nat): (b: seq<bv8>)
    requires off + n <= |m|
    ensures |b| == n
  {
    m[off..off + n]
  }

  lemma RangeOfRange(m: seq<bv8>, off: nat, n: nat, at: nat, k: nat)
    requires off + n <= |m| && at + k <= n
    ensures Range(Range(m, off, n), at, k) == Range(m, off + at, k)
  {
    var r := Range(m, off, n);
    forall i | 0 <= i < k ensures Range(r, at, k)[i] == Range(m, off + at, k)[i] {
      assert r[at + i] == m[off + at + i];
    }
  }

  lemma RangeAppend(m: seq<bv8>, off: nat, n: nat, k: nat)
    requires off + n + k <= |m|
    ensures Range(m, off, n + k) == Range(m, off, n) + Range(m, off + n, k)
  {}

  lemma RangePrepend(m: seq<bv8>, off: nat, n: nat)
    requires off + 1 + n <= |m|
    ensures Range(m, off, n + 1) == [m[off]] + Range(m, off + 1, n)
  {}

  /** Outside the written bytes a splice reads as before. */
  lemma SpliceElsewhere(m: seq<bv8>, off: nat, b: seq<bv8>, i: nat)
    requires off + |b| <= |m| && i < |m| && !(off <= i < off + |b|)
    ensures Splice(m, off, b)[i] == m[i]
  {}

  /** Writing c just before an earlier write is writing c + b. */
  lemma SplicePrepend(m: seq<bv8>, off: nat, c: seq<bv8>, b: seq<bv8>)
    requires off + |c| + |b| <= |m|
    ensures Splice(Splice(m, off + |c|, b), off, c) == Splice(m, off, c + b)
  {}

  method StoreBytes(mem: array<bv8>, off: nat, b: seq<bv8>)
    requires off + |b| <= mem.Length
    modifies mem
    ensures mem[..] == Splice(old(mem[..]), off, b)
  {
    forall i | 0 <= i < |b| {
      mem[off + i] := b[i];
    }
  }

  /** Store c right after the bytes b that were already written over m0 at off. */
  method StoreNext(mem: array<bv8>, ghost m0: seq<bv8>, off: nat, ghost b: seq<bv8>, at: nat, c: seq<bv8>)
    requires at == off + |b| && at + |c| <= mem.Length == |m0| && mem[..] == Splice(m0, off, b)
    modifies mem
    ensures mem[..] == Splice(m0, off, b + c)
  {
    StoreBytes(mem, at, c);
    SpliceAppend(m0, off, b, c);
  }

  /** Store c just before the bytes b that were already written over m0. */
  method StorePrevious(mem: array<bv8>, ghost m0: seq<bv8>, at: nat, c: bv8, ghost b: seq<bv8>)
    requires at + 1 + |b| <= mem.Length == |m0| && mem[..] == Splice(m0, at + 1, b)
    modifies mem
    ensures mem[..] == Splice(m0, at, [c] + b)
  {
    StoreBytes(mem, at, [c]);
    SplicePrepend(m0, at, [c], b);
  }

  /** b is a C string when it ends in its only NUL. */
  predicate IsCString(b: seq<bv8>) {
    b != [] && ZeroIndex(b) == |b| - 1
  }

  lemma ZeroIndexIs(b: seq<bv8>, k: nat)
    requires k < |b| && b[k] == 0 && 0 !in b[..k]
    ensures ZeroIndex(b) == k
  {}

  /** The string stored in a buffer: everything before the first NUL. */
  function Str(b: seq<bv8>): (s: seq<bv8>)
    ensures |s| <= |b| && 0 !in s && (0 in b ==> |s| < |b|)
  {
    if 0 in b then ZeroIndexFound(b); b[..ZeroIndex(b)] else b[..ZeroIndex(b)]
  }

  lemma StrIs(b: seq<bv8>, k: nat)
    requires k < |b| && b[k] == 0 && 0 !in b[..k]
    ensures Str(b) == b[..k] && 0 in b
  {}

  method Strlen(b: seq<bv8>) returns (n: nat)
    requires 0 in b
    ensures n == ZeroIndex(b) == |Str(b)|
  {
    ZeroIndexFound(b);
    n := 0;
    while b[n] != 0
      invariant n <= ZeroIndex(b)
      decreases |b| - n
    {
      n := n + 1;
    }
  }
}
