/** memmove on overlapping ranges of one memory, and strlcat. */
module Copying {
  import opened Memory
  import opened Words

  // ----- memmove

  /** Copy from the lowest byte up. */
  method MoveForward(mem: array<bv8>, dest: nat, src: nat, count: nat)
    requires dest <= src && src + count <= mem.Length
    modifies mem
    ensures mem[..] == Splice(old(mem[..]), dest, Range(old(mem[..]), src, count))
  {
    ghost var m0 := mem[..];
    var i := 0;
    while i < count
      invariant i <= count && mem[..] == Splice(m0, dest, Range(m0, src, i))
    {
      SpliceElsewhere(m0, dest, Range(m0, src, i), src + i);
      StoreNext(mem, m0, dest, Range(m0, src, i), dest + i, [mem[src + i]]);
      RangeAppend(m0, src, i, 1);
      i := i + 1;
    }
  }

  /** One step of the downward copy: the byte at index i joins those above it. */
  method MoveDown(mem: array<bv8>, ghost m0: seq<bv8>, dest: nat, src: nat, i: nat, ghost count: nat)
    requires src < dest && i < count && dest + count <= mem.Length == |m0|
    requires mem[..] == Splice(m0, dest + i + 1, Range(m0, src + i + 1, count - i - 1))
    modifies mem
    ensures mem[..] == Splice(m0, dest + i, Range(m0, src + i, count - i))
  {
    ghost var done := Range(m0, src + i + 1, count - i - 1);
    SpliceElsewhere(m0, dest + i + 1, done, src + i);
    RangePrepend(m0, src + i, count - i - 1);
    StorePrevious(mem, m0, dest + i, mem[src + i], done);
  }

  lemma SpliceNothing(m: seq<bv8>, dest: nat, src: nat)
    requires dest <= |m| && src <= |m|
    ensures Splice(m, dest, Range(m, src, 0)) == m
  {}

  /** Copy from the highest byte down. */
  method MoveBackward(mem: array<bv8>, dest: nat, src: nat, count: nat)
    requires src < dest && dest + count <= mem.Length
    modifies mem
    ensures mem[..] == Splice(old(mem[..]), dest, Range(old(mem[..]), src, count))
  {
    ghost var m0 := mem[..];
    var i := count;
    SpliceNothing(m0, dest + count, src + count);
    while i > 0
      invariant 0 <= i <= count && mem[..] == Splice(m0, dest + i, Range(m0, src + i, count - i))
    {
      i := i - 1;
      MoveDown(mem, m0, dest, src, i, count);
    }
  }

  /** For every relative placement of the ranges, dest receives what src held before the call. */
  method Memmove(mem: array<bv8>, dest: nat, src: nat, count: nat)
    requires dest + count <= mem.Length && src + count <= mem.Length
    modifies mem
    ensures mem[..] == Splice(old(mem[..]), dest, Range(old(mem[..]), src, count))
  {
    if dest <= src {
      MoveForward(mem, dest, src, count);
    } else {
      MoveBackward(mem, dest, src, count);
    }
  }

  // ----- strlcat

  const SIZE_T: nat := 0x1_0000_0000_0000_0000

  /** At most the first count - 1 bytes. */
  function Fit(s: seq<bv8>, count: nat): seq<bv8>
    requires count > 0
  {
    if |s| < count then s else s[..count - 1]
  }

  /** Appending as much of s as fits, and a NUL, to the string in b. */
  lemma CatBytes(b: seq<bv8>, s: seq<bv8>, len: nat)
    requires 0 in b && 0 !in s
    requires len == if |s| >= |b| - |Str(b)| then |b| - |Str(b)| - 1 else |s|
    ensures Str(Splice(b, |Str(b)|, s[..len] + [0])) == Fit(Str(b) + s, |b|)
    ensures 0 in Splice(b, |Str(b)|, s[..len] + [0])
  {
    var d := |Str(b)|;
    var b' := Splice(b, d, s[..len] + [0]);
    assert b'[d + len] == 0;
    forall i | 0 <= i < d + len ensures b'[i] == if i < d then Str(b)[i] else s[i - d] {
      if i < d {
        SpliceElsewhere(b, d, s[..len] + [0], i);
      } else {
        assert b'[i] == (s[..len] + [0])[i - d];
      }
    }
    ZeroIndexIs(b', d + len);
  }

  lemma SplicePrefix(m: seq<bv8>, off: nat, c: seq<bv8>, n: nat)
    requires off + |c| <= n <= |m|
    ensures Splice(m, off, c)[..n] == Splice(m[..n], off, c)
    ensures Splice(m, off, c)[n..] == m[n..]
  {}

  lemma CatMemory(m: seq<bv8>, count: nat, s: seq<bv8>, len: nat)
    requires count <= |m| && 0 in m[..count] && 0 !in s
    requires var d := |Str(m[..count])|;
      len == if |s| >= count - d then count - d - 1 else |s|
    ensures var d := |Str(m[..count])|;
      var m' := Splice(m, d, s[..len] + [0]);
      Str(m'[..count]) == Fit(Str(m[..count]) + s, count) && 0 in m'[..count] && m'[count..] == m[count..]
  {
    SplicePrefix(m, |Str(m[..count])|, s[..len] + [0], count);
    CatBytes(m[..count], s, len);
  }

  /** Returning at least count means truncation exactly when the attempted length does not wrap size_t,
      and it never does where dest and src are separate objects in one address space. */
  lemma TruncationTestIff(d: seq<bv8>, s: seq<bv8>, count: nat)
    requires |d| < count < 0x1_0000_0000_0000_0000 && |s| < 0x1_0000_0000_0000_0000
    ensures ((|d| + |s|) % 0x1_0000_0000_0000_0000 >= count <==> Fit(d + s, count) != d + s) <==>
      |d| + |s| < 0x1_0000_0000_0000_0000
    ensures count + |s| + 1 <= 0x1_0000_0000_0000_0000 ==> |d| + |s| < 0x1_0000_0000_0000_0000
  {}

  /** The two stores: as much of src as fits, then the NUL. */
  method AppendAt(dest: array<bv8>, at: nat, src: seq<bv8>, copied: nat)
    requires at + copied < dest.Length && copied <= |src|
    modifies dest
    ensures dest[..] == Splice(old(dest[..]), at, src[..copied] + [0])
  {
    ghost var m0 := dest[..];
    StoreBytes(dest, at, src[..copied]);
    StoreNext(dest, m0, at, src[..copied], at + copied, [0]);
  }

  /** The copy, once both lengths are known. */
  method Append(dest: array<bv8>, dsize: nat, src: seq<bv8>, len: nat, count: nat)
    requires count <= dest.Length && 0 in dest[..count] && dsize == |Str(dest[..count])|
    requires 0 in src && len == |Str(src)|
    modifies dest
    ensures Str(dest[..count]) == Fit(Str(old(dest[..count])) + Str(src), count)
    ensures 0 in dest[..count] && dest[count..] == old(dest[count..])
  {
    ghost var m0, s := dest[..], Str(src);
    var copied := if len >= count - dsize then count - dsize - 1 else len;
    AppendAt(dest, dsize, src, copied);
    assert src[..copied] == s[..copied];
    CatMemory(m0, count, s, copied);
  }

  /** The caller must pass a dest already terminated within count, which is what BUG_ON checks. */
  method Strlcat(dest: array<bv8>, src: seq<bv8>, count: nat) returns (res: nat)
    requires count <= dest.Length && 0 in dest[..count] && 0 in src
    requires count < 0x1_0000_0000_0000_0000 && |src| < 0x1_0000_0000_0000_0000
    modifies dest
    ensures res == (|Str(old(dest[..count]))| + |Str(src)|) % 0x1_0000_0000_0000_0000
    ensures Str(dest[..count]) == Fit(Str(old(dest[..count])) + Str(src), count)
    ensures count + |src| <= 0x1_0000_0000_0000_0000 ==>
              (res >= count <==> Str(dest[..count]) != Str(old(dest[..count])) + Str(src))
    ensures 0 in dest[..count]
    ensures dest[count..] == old(dest[count..])
  {
    var dsize := Strlen(dest[..count]);
    var len := Strlen(src);
    res := (dsize + len) % SIZE_T;
    TruncationTestIff(Str(dest[..count]), Str(src), count);
    Append(dest, dsize, src, len, count);
  }

  /** What dest holds after a sequence of strlcat calls with the same count. */
  function CatAll(d: seq<bv8>, sources: seq<seq<bv8>>, count: nat): seq<bv8>
    requires count > 0
    decreases sources
  {
    if sources == [] then d else CatAll(Fit(d + sources[0], count), sources[1..], count)
  }

  function Flatten(sources: seq<seq<bv8>>): seq<bv8> {
    if sources == [] then [] else sources[0] + Flatten(sources[1..])
  }

  /** The result is the first count - 1 bytes of everything, so truncation anywhere loses only a tail,
      and dest stays shorter than count, which is what the next call demands. */
  lemma {:induction false} CatAllIsPrefix(d: seq<bv8>, sources: seq<seq<bv8>>, count: nat)
    requires |d| < count
    ensures CatAll(d, sources, count) == Fit(d + Flatten(sources), count)
    ensures |CatAll(d, sources, count)| < count
    decreases sources
  {
    if sources == [] {
      assert d + [] == d;
    } else {
      var rest := Flatten(sources[1..]);
      CatAllIsPrefix(Fit(d + sources[0], count), sources[1..], count);
      assert d + (sources[0] + rest) == (d + sources[0]) + rest;
    }
  }

  function Strings(sources: seq<seq<bv8>>): (r: seq<seq<bv8>>)
    ensures |r| == |sources|
  {
    seq(|sources|, i requires 0 <= i < |sources| => Str(sources[i]))
  }

  /** Appending one more source to those already appended. */
  lemma {:induction false} CatAllSnoc(d: seq<bv8>, sources: seq<seq<bv8>>, s: seq<bv8>, count: nat)
    requires count > 0
    ensures CatAll(d, sources + [s], count) == Fit(CatAll(d, sources, count) + s, count)
    decreases sources
  {
    var more := sources + [s];
    if sources == [] {
      assert more[1..] == [];
    } else {
      assert more[1..] == sources[1..] + [s];
      CatAllSnoc(Fit(d + sources[0], count), sources[1..], s, count);
    }
  }

  lemma CatStep(d: seq<bv8>, sources: seq<seq<bv8>>, i: nat, count: nat)
    requires i < |sources| && count > 0
    ensures CatAll(d, Strings(sources[..i + 1]), count) ==
      Fit(CatAll(d, Strings(sources[..i]), count) + Str(sources[i]), count)
  {
    var done := Strings(sources[..i]);
    assert Strings(sources[..i + 1]) == done + [Str(sources[i])];
    CatAllSnoc(d, done, Str(sources[i]), count);
  }

  lemma CatDone(d: seq<bv8>, sources: seq<seq<bv8>>, count: nat)
    requires |d| < count
    ensures sources[..|sources|] == sources
    ensures CatAll(d, Strings(sources), count) == Fit(d + Flatten(Strings(sources)), count)
  {
    CatAllIsPrefix(d, Strings(sources), count);
  }

  /** Calling strlcat for each source in turn: every call may be made, and dest is left with as much of
      everything as fits. */
  method StrlcatAll(dest: array<bv8>, sources: seq<seq<bv8>>, count: nat)
    requires count <= dest.Length && 0 in dest[..count] && count < SIZE_T
    requires forall i | 0 <= i < |sources| :: 0 in sources[i] && |sources[i]| < SIZE_T
    modifies dest
    ensures Str(dest[..count]) == CatAll(Str(old(dest[..count])), Strings(sources), count)
    ensures Str(dest[..count]) == Fit(Str(old(dest[..count])) + Flatten(Strings(sources)), count)
    ensures 0 in dest[..count] && dest[count..] == old(dest[count..])
  {
    ghost var d := Str(dest[..count]);
    for i := 0 to |sources|
      invariant Str(dest[..count]) == CatAll(d, Strings(sources[..i]), count)
      invariant 0 in dest[..count] && dest[count..] == old(dest[count..])
    {
      CatStep(d, sources, i, count);
      var res := Strlcat(dest, sources[i], count);
    }
    CatDone(d, sources, count);
  }
}
