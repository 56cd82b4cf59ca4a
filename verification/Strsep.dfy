/** In-place tokenising: strchr, strpbrk and strsep, and a whole run of strsep calls. */
module Strsep {
  import opened Common
  import opened Memory
  import opened Words

  /** The distance to the first NUL or delimiter, or |b|. */
  function Span(b: seq<bv8>, ds: seq<bv8>): (k: nat)
    ensures k <= |b| && (forall i | 0 <= i < k :: b[i] != 0 && b[i] !in ds)
    ensures k < |b| ==> b[k] == 0 || b[k] in ds
  {
    if b == [] || b[0] == 0 || b[0] in ds then 0
    else
      var k := 1 + Span(b[1..], ds);
      assert forall i | 0 < i < k :: b[i] == b[1..][i - 1];
      k
  }

  lemma SpanFound(b: seq<bv8>, ds: seq<bv8>)
    requires 0 in b
    ensures Span(b, ds) <= ZeroIndex(b) < |b|
  {}

  lemma SpanIs(b: seq<bv8>, ds: seq<bv8>, k: nat)
    requires k < |b| && (forall i | 0 <= i < k :: b[i] != 0 && b[i] !in ds) && (b[k] == 0 || b[k] in ds)
    ensures Span(b, ds) == k
  {}

  /** The terminating NUL counts as part of the string. */
  method Strchr(s: seq<bv8>, c: bv8) returns (r: Option<nat>)
    requires 0 in s
    ensures r == None <==> c != 0 && c !in Str(s)
    ensures r.Some? ==> r.value <= ZeroIndex(s) && s[r.value] == c && c !in s[..r.value]
  {
    ZeroIndexFound(s);
    var i := 0;
    while s[i] != c
      invariant i <= ZeroIndex(s) && c !in s[..i]
      decreases |s| - i
    {
      if s[i] == 0 {
        return None;
      }
      i := i + 1;
    }
    if i < ZeroIndex(s) {
      assert Str(s)[i] == c;
    }
    return Some(i);
  }

  method Strpbrk(buf: array<bv8>, cs: nat, ct: seq<bv8>) returns (r: Option<nat>)
    requires cs <= buf.Length && 0 in buf[cs..] && 0 in ct
    ensures var k := cs + Span(buf[cs..], Str(ct));
      k < buf.Length && r == if buf[k] != 0 then Some(k) else None
  {
    ghost var b, ds := buf[cs..], Str(ct);
    SpanFound(b, ds);
    var sc := cs;
    while buf[sc] != 0
      invariant cs <= sc <= cs + ZeroIndex(b)
      invariant forall i | 0 <= i < sc - cs :: b[i] != 0 && b[i] !in ds
      decreases buf.Length - sc
    {
      var hit := Strchr(ct, buf[sc]);
      if hit.Some? {
        SpanIs(b, ds, sc - cs);
        return Some(sc);
      }
      sc := sc + 1;
    }
    SpanIs(b, ds, sc - cs);
    return None;
  }

  // ----- one call as a function of the memory and the cursor

  /** A token as the offsets of its first byte and of the NUL that ends it. */
  datatype Call = Call(memory: seq<bv8>, begin: nat, end: nat, cursor: Option<nat>)

  function Sep(m: seq<bv8>, c: nat, ds: seq<bv8>): (r: Call)
    requires c <= |m| && 0 in m[c..]
    ensures |r.memory| == |m| && c == r.begin <= r.end < |m|
    ensures r.cursor.Some? ==> r.end + 1 == r.cursor.value && m[r.end] != 0
  {
    SpanFound(m[c..], ds);
    var k := c + Span(m[c..], ds);
    if m[k] == 0 then Call(m, c, k, None) else Call(m[k := 0], c, k, Some(k + 1))
  }

  /** Returns the token and the new cursor, which the source writes through its argument. */
  method Strsep(buf: array<bv8>, s: Option<nat>, ct: seq<bv8>) returns (token: Option<nat>, s': Option<nat>)
    requires 0 in ct && (s.Some? ==> s.value <= buf.Length && 0 in buf[s.value..])
    modifies buf
    ensures s == None ==> token == None && s' == None && buf[..] == old(buf[..])
    ensures s.Some? ==>
      var call := Sep(old(buf[..]), s.value, Str(ct));
      token == s && s' == call.cursor && buf[..] == call.memory
  {
    if s == None {
      return None, None;
    }
    ghost var m := buf[..];
    assert m[s.value..] == buf[s.value..];
    var end := Strpbrk(buf, s.value, ct);
    s' := None;
    if end.Some? {
      buf[end.value] := 0;
      assert buf[..] == m[end.value := 0];
      s' := Some(end.value + 1);
    }
    token := s;
  }

  // ----- calling it until the cursor is NULL

  lemma SepKeepsTerminated(m: seq<bv8>, c: nat, ds: seq<bv8>)
    requires c <= |m| && 0 in m[c..]
    ensures var r := Sep(m, c, ds); r.cursor.Some? ==>
      r.cursor.value <= |m| && 0 in r.memory[r.cursor.value..]
  {}

  /** The tokens returned, the delimiters overwritten, and the final memory. */
  datatype Run = Run(tokens: seq<seq<bv8>>, delimiters: seq<bv8>, memory: seq<bv8>)

  function RunFrom(m: seq<bv8>, c: nat, ds: seq<bv8>): (r: Run)
    requires c <= |m| && 0 in m[c..]
    ensures |r.tokens| == |r.delimiters| + 1 && |r.memory| == |m|
    decreases |m| - c
  {
    var call := Sep(m, c, ds);
    SepKeepsTerminated(m, c, ds);
    var token := call.memory[c..call.end];
    if call.cursor == None then Run([token], [], call.memory)
    else
      var rest := RunFrom(call.memory, call.cursor.value, ds);
      Run([token] + rest.tokens, [m[call.end]] + rest.delimiters, rest.memory)
  }

  /** The tokens with the delimiters put back between them. */
  function Join(tokens: seq<seq<bv8>>, delimiters: seq<bv8>): seq<bv8>
    requires |tokens| == |delimiters| + 1
  {
    if delimiters == [] then tokens[0]
    else tokens[0] + [delimiters[0]] + Join(tokens[1..], delimiters[1..])
  }

  /** s with everything but the delimiters dropped. */
  function DelimitersOf(s: seq<bv8>, ds: seq<bv8>): seq<bv8> {
    if s == [] then [] else (if s[0] in ds then [s[0]] else []) + DelimitersOf(s[1..], ds)
  }

  predicate Clean(t: seq<bv8>, ds: seq<bv8>) {
    forall i | 0 <= i < |t| :: t[i] !in ds
  }

  lemma StrAfter(b: seq<bv8>, k: nat)
    requires 0 in b && k < |Str(b)|
    ensures 0 in b[k + 1..] && Str(b[k + 1..]) == Str(b)[k + 1..]
  {}

  lemma Cut(s: seq<bv8>, k: nat)
    requires k < |s|
    ensures s == s[..k] + [s[k]] + s[k + 1..]
  {}

  /** The first token of a terminated string is a prefix of it. */
  lemma SpanInStr(b: seq<bv8>, ds: seq<bv8>)
    requires 0 in b
    ensures var k := Span(b, ds);
      k <= |Str(b)| < |b| && b[..k] == Str(b)[..k] && (b[k] == 0 <==> k == |Str(b)|) &&
      (k < |Str(b)| ==> Str(b)[k] == b[k])
  {}

  /** One call splits the string it starts at into the token and what follows the delimiter. */
  lemma SepSplits(m: seq<bv8>, c: nat, ds: seq<bv8>)
    requires c <= |m| && 0 in m[c..]
    ensures var r := Sep(m, c, ds);
      var token := r.memory[c..r.end];
      Clean(token, ds) &&
      if r.cursor == None then Str(m[c..]) == token
      else
        var next := r.cursor.value;
        m[r.end] in ds && next <= |m| && 0 in r.memory[next..] &&
        Str(m[c..]) == token + [m[r.end]] + Str(r.memory[next..])
  {
    var r := Sep(m, c, ds);
    var b, k := m[c..], Span(m[c..], ds);
    SpanInStr(b, ds);
    TokenBytes(m, c, ds);
    if r.cursor.Some? {
      CutStr(b, k, r.memory[c..r.end], m[r.end], r.memory[r.cursor.value..]);
    } else {
      assert Str(b)[..k] == Str(b);
    }
  }

  lemma CutStr(b: seq<bv8>, k: nat, token: seq<bv8>, d: bv8, after: seq<bv8>)
    requires 0 in b && k < |Str(b)| && token == b[..k] && d == b[k] && after == b[k + 1..]
    ensures 0 in after && Str(b) == token + [d] + Str(after)
  {
    StrAfter(b, k);
    Cut(Str(b), k);
    assert Str(b)[..k] == token;
  }

  lemma TokenBytes(m: seq<bv8>, c: nat, ds: seq<bv8>)
    requires c <= |m| && 0 in m[c..]
    ensures var r, k := Sep(m, c, ds), Span(m[c..], ds);
      r.end == c + k && r.memory[c..r.end] == m[c..][..k] && Clean(m[c..][..k], ds) && m[c..][k] == m[r.end] &&
      (r.cursor.Some? ==> r.memory[r.cursor.value..] == m[c..][k + 1..])
  {}

  lemma {:induction false} NoDelimiters(t: seq<bv8>, ds: seq<bv8>)
    requires Clean(t, ds)
    ensures DelimitersOf(t, ds) == []
  {
    if t != [] {
      NoDelimiters(t[1..], ds);
    }
  }

  lemma {:induction false} DelimitersAfterToken(t: seq<bv8>, d: bv8, rest: seq<bv8>, ds: seq<bv8>)
    requires Clean(t, ds) && d in ds
    ensures DelimitersOf(t + [d] + rest, ds) == [d] + DelimitersOf(rest, ds)
  {
    var s := t + [d] + rest;
    if t == [] {
      assert s[1..] == rest;
    } else {
      assert s[1..] == t[1..] + [d] + rest;
      DelimitersAfterToken(t[1..], d, rest, ds);
    }
  }

  /** The tokens and delimiters of a run split s: put back between the tokens the delimiters give s, they
      are all those of s in order, and no token holds one. */
  predicate Splits(r: Run, s: seq<bv8>, ds: seq<bv8>) {
    |r.tokens| == |r.delimiters| + 1 && Join(r.tokens, r.delimiters) == s && r.delimiters == DelimitersOf(s, ds) &&
    forall j | 0 <= j < |r.tokens| :: Clean(r.tokens[j], ds)
  }

  lemma SplitsCons(r: Run, token: seq<bv8>, d: bv8, rest: Run, whole: seq<bv8>, s: seq<bv8>, ds: seq<bv8>)
    requires Splits(rest, s, ds) && Clean(token, ds) && d in ds
    requires r.tokens == [token] + rest.tokens && r.delimiters == [d] + rest.delimiters && whole == token + [d] + s
    ensures Splits(r, whole, ds)
  {
    DelimitersAfterToken(token, d, s, ds);
    assert r.tokens[1..] == rest.tokens && r.delimiters[1..] == rest.delimiters;
  }

  lemma SplitsOne(r: Run, token: seq<bv8>, ds: seq<bv8>)
    requires Clean(token, ds) && r.tokens == [token] && r.delimiters == []
    ensures Splits(r, token, ds)
  {
    NoDelimiters(token, ds);
  }

  lemma RunStep(m: seq<bv8>, c: nat, ds: seq<bv8>)
    requires c <= |m| && 0 in m[c..]
    ensures var r, call := RunFrom(m, c, ds), Sep(m, c, ds);
      var token := call.memory[c..call.end];
      if call.cursor == None then r.tokens == [token] && r.delimiters == [] && r.memory == call.memory
      else
        var next := call.cursor.value;
        next <= |m| && 0 in call.memory[next..] &&
        r.tokens == [token] + RunFrom(call.memory, next, ds).tokens &&
        r.delimiters == [m[call.end]] + RunFrom(call.memory, next, ds).delimiters &&
        r.memory == RunFrom(call.memory, next, ds).memory
  {
    SepKeepsTerminated(m, c, ds);
  }

  /** Calling strsep until the cursor is NULL splits the string and loses nothing, so there is one more
      token than delimiters. */
  lemma {:induction false} RunSplits(m: seq<bv8>, c: nat, ds: seq<bv8>)
    requires c <= |m| && 0 in m[c..]
    ensures Splits(RunFrom(m, c, ds), Str(m[c..]), ds)
    decreases |m| - c
  {
    var call := Sep(m, c, ds);
    var r, token := RunFrom(m, c, ds), call.memory[c..call.end];
    SepSplits(m, c, ds);
    RunStep(m, c, ds);
    if call.cursor == None {
      SplitsOne(r, token, ds);
    } else {
      var next := call.cursor.value;
      RunSplits(call.memory, next, ds);
      SplitsCons(r, token, m[call.end], RunFrom(call.memory, next, ds), Str(m[c..]), Str(call.memory[next..]), ds);
    }
  }

  /** One call's share of that: what byte i becomes, and how long a string is left. */
  lemma SepWrites(m: seq<bv8>, c: nat, ds: seq<bv8>, i: nat)
    requires c <= |m| && 0 in m[c..] && i < |m|
    ensures var r := Sep(m, c, ds);
      r.memory[i] == (if r.cursor.Some? && i == r.end then 0 else m[i]) &&
      (c <= i < r.end ==> m[i] !in ds) && (r.cursor.Some? ==> m[r.end] in ds && 0 in r.memory[r.cursor.value..]) &&
      |Str(m[c..])| == r.end - c + if r.cursor.Some? then 1 + |Str(r.memory[r.cursor.value..])| else 0
  {
    SepSplits(m, c, ds);
    if c <= i < Sep(m, c, ds).end {
      assert m[i] == m[c..][i - c];
    }
  }

  /** The run changes the memory only at the delimiters of the string, where it stores NUL. */
  lemma {:induction false} RunWrites(m: seq<bv8>, c: nat, ds: seq<bv8>, i: nat)
    requires c <= |m| && 0 in m[c..] && i < |m|
    ensures RunFrom(m, c, ds).memory[i] == if c <= i < c + |Str(m[c..])| && m[i] in ds then 0 else m[i]
    decreases |m| - c
  {
    var call := Sep(m, c, ds);
    SepWrites(m, c, ds, i);
    if call.cursor.Some? {
      RunWrites(call.memory, call.cursor.value, ds, i);
    }
  }

  /** t is the string at offset b, ended by its NUL below the limit. */
  predicate StringAt(m: seq<bv8>, b: nat, t: seq<bv8>, limit: nat) {
    b + |t| < limit <= |m| && m[b..b + |t|] == t && m[b + |t|] == 0 && 0 !in t
  }

  lemma StringKept(m: seq<bv8>, m': seq<bv8>, b: nat, t: seq<bv8>, limit: nat, limit': nat)
    requires StringAt(m, b, t, limit) && limit <= limit' <= |m'| == |m| && m'[..limit] == m[..limit]
    ensures StringAt(m', b, t, limit')
  {
    assert m'[b..b + |t|] == m'[..limit][b..b + |t|] == m[..limit][b..b + |t|];
    assert m'[..limit][b + |t|] == 0;
  }

  lemma StringIs(m: seq<bv8>, b: nat, t: seq<bv8>, limit: nat)
    requires StringAt(m, b, t, limit)
    ensures 0 in m[b..] && Str(m[b..]) == t
  {
    assert m[b..][..|t|] == t && m[b..][|t|] == 0;
    ZeroIndexIs(m[b..], |t|);
  }

  /** One call leaves its token as a string and everything before it alone. */
  lemma SepToken(m: seq<bv8>, c: nat, ds: seq<bv8>)
    requires c <= |m| && 0 in m[c..]
    ensures var r := Sep(m, c, ds);
      r.memory[..c] == m[..c] &&
      StringAt(r.memory, c, r.memory[c..r.end], if r.cursor.Some? then r.cursor.value else |m|)
  {
    var b, k := m[c..], Span(m[c..], ds);
    TokenBytes(m, c, ds);
    assert forall i | 0 <= i < k :: b[..k][i] != 0;
  }

  /** The pointers returned so far, as the strings they are now, and the run still to come. */
  predicate SplitSoFar(m: seq<bv8>, tokens: seq<nat>, strings: seq<seq<bv8>>, limit: nat) {
    |tokens| == |strings| && forall j | 0 <= j < |tokens| :: StringAt(m, tokens[j], strings[j], limit)
  }

  lemma SplitNext(m: seq<bv8>, c: nat, ds: seq<bv8>, tokens: seq<nat>, strings: seq<seq<bv8>>)
    requires c <= |m| && 0 in m[c..] && SplitSoFar(m, tokens, strings, c)
    ensures var r := Sep(m, c, ds);
      SplitSoFar(r.memory, tokens + [c], strings + [r.memory[c..r.end]],
                 if r.cursor.Some? then r.cursor.value else |m|)
  {
    var r := Sep(m, c, ds);
    var limit := if r.cursor.Some? then r.cursor.value else |m|;
    SepToken(m, c, ds);
    forall j | 0 <= j < |tokens| ensures StringAt(r.memory, tokens[j], strings[j], limit) {
      assert r.memory[..c] == m[..c];
      StringKept(m, r.memory, tokens[j], strings[j], c, limit);
    }
  }

  /** The run from m at c has returned these strings when it gets to m' at c'. */
  predicate Reaches(m: seq<bv8>, c: nat, ds: seq<bv8>, strings: seq<seq<bv8>>, m': seq<bv8>, c': Option<nat>)
    requires c <= |m| && 0 in m[c..]
    requires c'.Some? ==> c'.value <= |m'| && 0 in m'[c'.value..]
  {
    var r := RunFrom(m, c, ds);
    match c'
    case None => r.tokens == strings && r.memory == m'
    case Some(k) =>
      r.tokens == strings + RunFrom(m', k, ds).tokens && r.memory == RunFrom(m', k, ds).memory
  }

  lemma ReachesNext(m: seq<bv8>, c: nat, ds: seq<bv8>, strings: seq<seq<bv8>>, m': seq<bv8>, c': nat)
    requires c <= |m| && 0 in m[c..] && c' <= |m'| && 0 in m'[c'..]
    requires Reaches(m, c, ds, strings, m', Some(c'))
    ensures var call := Sep(m', c', ds);
      (call.cursor.Some? ==> call.cursor.value <= |call.memory| && 0 in call.memory[call.cursor.value..]) &&
      Reaches(m, c, ds, strings + [call.memory[c'..call.end]], call.memory, call.cursor)
  {
    RunStep(m', c', ds);
    var call := Sep(m', c', ds);
    var token := call.memory[c'..call.end];
    if call.cursor.Some? {
      Regroup(strings, token, RunFrom(call.memory, call.cursor.value, ds).tokens);
    }
  }

  lemma Regroup(a: seq<seq<bv8>>, t: seq<bv8>, b: seq<seq<bv8>>)
    ensures a + ([t] + b) == a + [t] + b
  {}

  /** Calling strsep until the cursor is NULL: the pointers returned are the strings of the run, all of
      them still in place when the last call is done. */
  method StrsepAll(buf: array<bv8>, s: nat, ct: seq<bv8>) returns (tokens: seq<nat>)
    requires s <= buf.Length && 0 in buf[s..] && 0 in ct
    modifies buf
    ensures var r := RunFrom(old(buf[..]), s, Str(ct));
      buf[..] == r.memory && |tokens| == |r.tokens| &&
      forall j | 0 <= j < |tokens| ::
        tokens[j] <= buf.Length && 0 in buf[tokens[j]..] && Str(buf[tokens[j]..]) == r.tokens[j]
  {
    ghost var m, ds := buf[..], Str(ct);
    ghost var strings: seq<seq<bv8>> := [];
    var cursor := Some(s);
    tokens := [];
    while cursor.Some?
      invariant cursor.Some? ==> cursor.value <= buf.Length && 0 in buf[..][cursor.value..]
      invariant SplitSoFar(buf[..], tokens, strings, if cursor.Some? then cursor.value else buf.Length)
      invariant Reaches(m, s, ds, strings, buf[..], cursor)
      decreases if cursor.Some? then 1 + buf.Length - cursor.value else 0
    {
      ghost var now, c := buf[..], cursor.value;
      SplitNext(now, c, ds, tokens, strings);
      ReachesNext(m, s, ds, strings, now, c);
      assert now[c..] == buf[c..];
      var token;
      token, cursor := Strsep(buf, cursor, ct);
      strings := strings + [buf[..][c..Sep(now, c, ds).end]];
      tokens := tokens + [token.value];
    }
    forall j | 0 <= j < |tokens|
      ensures tokens[j] <= buf.Length && 0 in buf[tokens[j]..] && Str(buf[tokens[j]..]) == strings[j]
    {
      StringIs(buf[..], tokens[j], strings[j], buf.Length);
      assert buf[..][tokens[j]..] == buf[tokens[j]..];
    }
  }

  /** There is only one way to cut a string into delimiter-free tokens at delimiters. */
  lemma {:induction false} SplitUnique(t: seq<seq<bv8>>, d: seq<bv8>, t': seq<seq<bv8>>, d': seq<bv8>, ds: seq<bv8>)
    requires |t| == |d| + 1 && |t'| == |d'| + 1 && Join(t, d) == Join(t', d')
    requires (forall j | 0 <= j < |t| :: Clean(t[j], ds)) && (forall j | 0 <= j < |t'| :: Clean(t'[j], ds))
    requires (forall j | 0 <= j < |d| :: d[j] in ds) && (forall j | 0 <= j < |d'| :: d'[j] in ds)
    ensures t == t' && d == d'
  {
    var s := Join(t, d);
    FirstToken(t, d, ds);
    FirstToken(t', d', ds);
    assert s[..|t[0]|] == t[0] && s[..|t'[0]|] == t'[0];
    if d != [] {
      var n := |t[0]| + 1;
      assert s[n..] == Join(t[1..], d[1..]) && s[n..] == Join(t'[1..], d'[1..]);
      SplitUnique(t[1..], d[1..], t'[1..], d'[1..], ds);
      assert t == [t[0]] + t[1..] && t' == [t'[0]] + t'[1..];
      assert d == [d[0]] + d[1..] && d' == [d'[0]] + d'[1..];
    }
  }

  lemma FirstToken(t: seq<seq<bv8>>, d: seq<bv8>, ds: seq<bv8>)
    requires |t| == |d| + 1 && Clean(t[0], ds) && (forall j | 0 <= j < |d| :: d[j] in ds)
    ensures |t[0]| <= |Join(t, d)| && forall i | 0 <= i < |t[0]| :: Join(t, d)[i] !in ds
    ensures if d == [] then |t[0]| == |Join(t, d)| else |t[0]| < |Join(t, d)| && Join(t, d)[|t[0]|] in ds
  {}
}
