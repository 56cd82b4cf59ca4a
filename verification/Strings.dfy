/** strcmp, strncmp, strstr and strnstr. */
module Strings {
  import opened Common
  import opened MemCompare
  import opened Memory
  import opened Words

  // ----- comparison

  /** Lexicographic order of two strings as unsigned bytes, a proper prefix coming first. */
  function Order(s: seq<bv8>, t: seq<bv8>): int {
    if s == [] then if t == [] then 0 else -1
    else if t == [] then 1
    else if s[0] != t[0] then if s[0] < t[0] then -1 else 1
    else Order(s[1..], t[1..])
  }

  lemma {:induction false} OrderLaws(s: seq<bv8>, t: seq<bv8>)
    ensures Order(s, t) == 0 <==> s == t
    ensures Order(t, s) == -Order(s, t)
  {
    if s != [] && t != [] && s[0] == t[0] {
      OrderLaws(s[1..], t[1..]);
      assert s == [s[0]] + s[1..] && t == [t[0]] + t[1..];
    }
  }

  lemma {:induction false} OrderTransitive(s: seq<bv8>, t: seq<bv8>, u: seq<bv8>)
    requires Order(s, t) <= 0 && Order(t, u) <= 0
    ensures Order(s, u) <= 0
  {
    if s != [] && t != [] && u != [] && s[0] == t[0] == u[0] {
      OrderTransitive(s[1..], t[1..], u[1..]);
    }
  }

  /** The first n bytes, or all of them. */
  function Take(s: seq<bv8>, n: nat): seq<bv8> {
    if |s| <= n then s else s[..n]
  }

  /** Strings that agree before index k are ordered by what is at and after k. */
  lemma {:induction false} OrderSkip(s: seq<bv8>, t: seq<bv8>, k: nat)
    requires k <= |s| && k <= |t| && s[..k] == t[..k]
    ensures Order(s, t) == Order(s[k..], t[k..])
  {
    if k > 0 {
      assert s[0] == s[..k][0] == t[..k][0] == t[0];
      assert s[1..][..k - 1] == s[..k][1..] && t[1..][..k - 1] == t[..k][1..];
      OrderSkip(s[1..], t[1..], k - 1);
      assert s[1..][k - 1..] == s[k..] && t[1..][k - 1..] == t[k..];
    }
  }

  /** The bytes at index i decide, once everything before agrees. */
  lemma OrderAt(s: seq<bv8>, t: seq<bv8>, i: nat)
    requires i <= |s| && i <= |t| && s[..i] == t[..i]
    ensures i < |s| && i < |t| && s[i] != t[i] ==> Order(s, t) == if s[i] < t[i] then -1 else 1
    ensures i == |s| ==> Order(s, t) == if i == |t| then 0 else -1
    ensures i == |t| < |s| ==> Order(s, t) == 1
  {
    OrderSkip(s, t, i);
  }

  /** What a bounded read at index i tells about the string cut to count bytes. */
  lemma TakeAt(b: seq<bv8>, count: nat, i: nat)
    requires (0 in b || count <= |b|) && i < count && i <= |Take(Str(b), count)|
    ensures i < |b| && (b[i] == 0 <==> i == |Take(Str(b), count)|)
    ensures b[i] != 0 ==> Take(Str(b), count)[i] == b[i]
  {}

  method Strcmp(cs: seq<bv8>, ct: seq<bv8>) returns (r: int)
    requires 0 in cs && 0 in ct
    ensures r == Order(Str(cs), Str(ct))
  {
    ghost var s, t := Str(cs), Str(ct);
    var i := 0;
    while true
      invariant i <= |s| && i <= |t| && s[..i] == t[..i]
      decreases |s| - i
    {
      OrderSkip(s, t, i);
      var c1, c2 := cs[i], ct[i];
      assert (c1 == 0 <==> i == |s|) && (c2 == 0 <==> i == |t|);
      if c1 != c2 {
        return if c1 < c2 then -1 else 1;
      }
      if c1 == 0 {
        return 0;
      }
      i := i + 1;
    }
  }

  /** strncmp is strcmp on the strings cut to count bytes. */
  method Strncmp(cs: seq<bv8>, ct: seq<bv8>, count: nat) returns (r: int)
    requires (0 in cs || count <= |cs|) && (0 in ct || count <= |ct|)
    ensures r == Order(Take(Str(cs), count), Take(Str(ct), count))
  {
    ghost var s, t := Take(Str(cs), count), Take(Str(ct), count);
    var i := 0;
    while i < count
      invariant i <= |s| && i <= |t| && i <= count && s[..i] == t[..i]
    {
      TakeAt(cs, count, i);
      TakeAt(ct, count, i);
      OrderAt(s, t, i);
      var c1, c2 := cs[i], ct[i];
      if c1 != c2 {
        return if c1 < c2 then -1 else 1;
      }
      if c1 == 0 {
        return 0;
      }
      i := i + 1;
    }
    OrderAt(s, t, i);
    return 0;
  }

  // ----- search

  predicate MatchAt(h: seq<bv8>, n: seq<bv8>, i: nat) {
    i + |n| <= |h| && h[i..i + |n|] == n
  }

  /** r is the least offset at which n occurs in h, or None when it occurs nowhere. */
  ghost predicate IsFirstMatch(h: seq<bv8>, n: seq<bv8>, r: Option<nat>) {
    match r
    case None => forall i: nat :: !MatchAt(h, n, i)
    case Some(k) => MatchAt(h, n, k) && forall i | 0 <= i < k :: !MatchAt(h, n, i)
  }

  lemma MatchByDifference(m: seq<bv8>, s1: nat, len: nat, i: nat, n: seq<bv8>)
    requires s1 + len <= |m| && i + |n| <= len
    ensures MatchAt(Range(m, s1, len), n, i) <==> Difference(Range(m, s1 + i, |n|), n) == 0
  {
    RangeOfRange(m, s1, len, i, |n|);
    DifferenceLaws(Range(m, s1 + i, |n|), n);
  }

  /** !memcmp(s1 + i, s2, l2): whether the second range occurs at offset i of the first. */
  method Matches(mem: array<bv8>, s1: nat, ghost room: nat, i: nat, s2: nat, l2: nat, fast: bool, little: bool)
    returns (hit: bool)
    requires s1 + room <= mem.Length && i + l2 <= room && s2 + l2 <= mem.Length
    ensures hit <==> MatchAt(Range(mem[..], s1, room), Range(mem[..], s2, l2), i)
  {
    var c := Memcmp(mem, s1 + i, s2, l2, fast, little);
    MatchByDifference(mem[..], s1, room, i, Range(mem[..], s2, l2));
    hit := c == 0;
  }

  /** The search loop both functions share: left counts the bytes from s1 on. A length beyond the storage
      at s1 is only passed when a match stops the search inside it. */
  method Search(mem: array<bv8>, s1: nat, s2: nat, len: nat, l2: nat, fast: bool, little: bool)
    returns (r: Option<nat>)
    requires s1 <= mem.Length && s2 + l2 <= mem.Length && l2 > 0
    requires StaysInside(mem[s1..], Range(mem[..], s2, l2), len)
    ensures IsFirstMatch(Take(mem[s1..], len), Range(mem[..], s2, l2), r)
  {
    ghost var h, n := Take(mem[s1..], len), Range(mem[..], s2, l2);
    assert h == Range(mem[..], s1, |h|);
    var i, left := 0, len;
    while left >= l2
      invariant i + left == len && left >= 0
      invariant forall j | 0 <= j < i :: !MatchAt(h, n, j)
    {
      NextStaysInside(mem[s1..], n, len, i);
      left := left - 1;
      var hit := Matches(mem, s1, |h|, i, s2, l2, fast, little);
      if hit {
        return Some(i);
      }
      i := i + 1;
    }
    return None;
  }

  /** No search for n in the first len bytes from the start of h reads past h. */
  predicate StaysInside(h: seq<bv8>, n: seq<bv8>, len: nat) {
    len <= |h| || exists i: nat | i <= |h| :: MatchAt(h, n, i)
  }

  lemma NextStaysInside(h: seq<bv8>, n: seq<bv8>, len: nat, i: nat)
    requires StaysInside(h, n, len) && i + |n| <= len
    requires forall j | 0 <= j < i :: !MatchAt(Take(h, len), n, j)
    ensures i + |n| <= |Take(h, len)|
  {
    if len > |h| {
      var k: nat :| k <= |h| && MatchAt(h, n, k);
      assert !MatchAt(Take(h, len), n, k) || i <= k;
    }
  }

  method Strstr(mem: array<bv8>, s1: nat, s2: nat, fast: bool, little: bool) returns (r: Option<nat>)
    requires s1 <= mem.Length && s2 <= mem.Length && 0 in mem[s1..] && 0 in mem[s2..]
    ensures IsFirstMatch(Str(mem[s1..]), Str(mem[s2..]), r)
  {
    var l2 := Strlen(mem[s2..]);
    if l2 == 0 {
      return Some(0);
    }
    var l1 := Strlen(mem[s1..]);
    assert Take(mem[s1..], l1) == Str(mem[s1..]) && Range(mem[..], s2, l2) == Str(mem[s2..]);
    r := Search(mem, s1, s2, l1, l2, fast, little);
  }

  /** Only len bounds the search: a NUL in s1 does not stop it. */
  method Strnstr(mem: array<bv8>, s1: nat, s2: nat, len: nat, fast: bool, little: bool) returns (r: Option<nat>)
    requires s1 <= mem.Length && s2 <= mem.Length && 0 in mem[s2..]
    requires StaysInside(mem[s1..], Str(mem[s2..]), len)
    ensures IsFirstMatch(Take(mem[s1..], len), Str(mem[s2..]), r)
  {
    var l2 := Strlen(mem[s2..]);
    if l2 == 0 {
      return Some(0);
    }
    assert Range(mem[..], s2, l2) == Str(mem[s2..]);
    r := Search(mem, s1, s2, len, l2, fast, little);
  }

  // ----- strnstr against its documentation

  /** Searching a and searching b find the same. */
  ghost predicate SameSearch(a: seq<bv8>, b: seq<bv8>, n: seq<bv8>) {
    forall r :: IsFirstMatch(a, n, r) <==> IsFirstMatch(b, n, r)
  }

  /** Storage for the string s: it is followed by a NUL, and that by anything. */
  predicate Stores(h: seq<bv8>, s: seq<bv8>) {
    0 in h && Str(h) == s
  }

  lemma SameMatches(a: seq<bv8>, b: seq<bv8>, n: seq<bv8>)
    requires forall i: nat :: MatchAt(a, n, i) <==> MatchAt(b, n, i)
    ensures SameSearch(a, b, n)
  {}

  /** A match of a NUL-free n lies before the NUL or after it. */
  lemma MatchBesideNul(h: seq<bv8>, s: seq<bv8>, n: seq<bv8>, i: nat)
    requires Stores(h, s) && 0 !in n && MatchAt(h, n, i)
    ensures n == [] || i + |n| <= |s| || |s| < i
  {
    forall x | i <= x < i + |n| ensures h[x] in n {
      assert h[x] == n[x - i];
    }
  }

  lemma MatchInPrefix(h: seq<bv8>, s: seq<bv8>, n: seq<bv8>, i: nat)
    requires |s| <= |h| && h[..|s|] == s && i + |n| <= |s|
    ensures MatchAt(h, n, i) <==> MatchAt(s, n, i)
  {
    assert s[i..i + |n|] == h[i..i + |n|];
  }

  /** Up to |n| bytes past the string leave no room for a match behind the NUL. */
  lemma NoRoomPastNul(h: seq<bv8>, s: seq<bv8>, n: seq<bv8>, len: nat)
    requires Stores(h, s) && 0 !in n && n != [] && len <= |h| && len <= |s| + |n|
    ensures SameSearch(Take(h, len), Take(s, len), n)
  {
    var a, t := Take(h, len), Take(s, len);
    assert a[..|t|] == t && h[..|a|] == a;
    forall i: nat ensures MatchAt(a, n, i) <==> MatchAt(t, n, i) {
      if i + |n| <= |t| {
        MatchInPrefix(a, t, n, i);
      } else if MatchAt(a, n, i) {
        MatchInPrefix(h, a, n, i);
        MatchBesideNul(h, s, n, i);
      }
    }
    SameMatches(a, t, n);
  }

  /** A match in the string is found first, whatever follows the NUL. */
  lemma MatchInString(h: seq<bv8>, s: seq<bv8>, n: seq<bv8>, len: nat, k: nat)
    requires Stores(h, s) && MatchAt(s, n, k) && |s| <= len <= |h|
    ensures SameSearch(Take(h, len), Take(s, len), n)
  {
    var a := Take(h, len);
    assert a[..|s|] == s && Take(s, len) == s;
    forall i: nat | i <= k ensures MatchAt(a, n, i) <==> MatchAt(s, n, i) {
      MatchInPrefix(a, s, n, i);
    }
  }

  /** Storage in which n follows the NUL. */
  function Planted(s: seq<bv8>, n: seq<bv8>, len: nat): seq<bv8> {
    s + [0] + n + seq(len, _ => 0)
  }

  lemma PlantedMatch(s: seq<bv8>, n: seq<bv8>, len: nat)
    requires 0 !in s && len > |s| + |n|
    ensures Stores(Planted(s, n, len), s) && MatchAt(Take(Planted(s, n, len), len), n, |s| + 1)
  {
    var h := Planted(s, n, len);
    assert h[..|s|] == s && h[|s|] == 0;
    StrIs(h, |s|);
    assert Take(h, len)[|s| + 1..|s| + 1 + |n|] == n;
  }

  lemma FirstMatchExists(h: seq<bv8>, n: seq<bv8>, k: nat) returns (r: nat)
    requires MatchAt(h, n, k)
    ensures IsFirstMatch(h, n, Some(r))
  {
    r := 0;
    while !MatchAt(h, n, r)
      invariant r <= k && forall i | 0 <= i < r :: !MatchAt(h, n, i)
      decreases k - r
    {
      r := r + 1;
    }
  }

  /** strnstr searches the first len bytes of the string s, whatever its storage holds after the NUL,
      exactly when there is no room for a match behind the NUL or the string has one of its own. */
  lemma StrnstrAgreesIff(s: seq<bv8>, n: seq<bv8>, len: nat)
    requires 0 !in s && 0 !in n
    ensures (forall h | Stores(h, s) && len <= |h| :: SameSearch(Take(h, len), Take(s, len), n)) <==>
      len <= |s| + |n| || exists i: nat :: MatchAt(s, n, i)
  {
    if len <= |s| + |n| || exists i: nat :: MatchAt(s, n, i) {
      forall h | Stores(h, s) && len <= |h| ensures SameSearch(Take(h, len), Take(s, len), n) {
        if len <= |s| {
          assert h[..len] == s[..len];
        } else if n != [] && len <= |s| + |n| {
          NoRoomPastNul(h, s, n, len);
        } else {
          var k: nat :| MatchAt(s, n, k) || (k == 0 && n == []);
          MatchInString(h, s, n, len, k);
        }
      }
    } else {
      var h := Planted(s, n, len);
      PlantedMatch(s, n, len);
      var r := FirstMatchExists(Take(h, len), n, |s| + 1);
      assert Take(s, len) == s;
      assert !IsFirstMatch(Take(s, len), n, Some(r));
    }
  }

  /** The smallest case: in the bytes "a", NUL, "b" strnstr with len 3 finds "b". */
  lemma StrnstrPastNul()
    ensures var h, n: seq<bv8> := [0x61, 0, 0x62], [0x62];
      IsFirstMatch(Str(h), n, None) && IsFirstMatch(h, n, Some(2))
  {
    var h, n: seq<bv8> := [0x61, 0, 0x62], [0x62];
    StrIs(h, 1);
  }
}
