/** The C lexical scanners: comment stripping, balanced extraction and ordered token search. */
module Scanner {
  import opened Common

  datatype Mode = Code | Block | Line | Str | Chr

  function Quote(m: Mode): char {
    if m == Str then '"' else '\''
  }

  /** t starts with the two characters a, b. */
  predicate Starts(t: string, a: char, b: char) {
    |t| >= 2 && t[0] == a && t[1] == b
  }

  /** How many characters one iteration of a scanner consumes. */
  function Width(t: string, m: Mode): (n: nat)
    requires t != []
    ensures 1 <= n <= 2 && n <= |t|
  {
    match m
    case Code => if Starts(t, '/', '*') || Starts(t, '/', '/') then 2 else 1
    case Block => if Starts(t, '*', '/') then 2 else 1
    case Line => 1
    case _ => if t[0] == '\\' && |t| >= 2 then 2 else 1
  }

  /** The state after it. */
  function Next(t: string, m: Mode): Mode
    requires t != []
  {
    match m
    case Code =>
      if Starts(t, '/', '*') then Block
      else if Starts(t, '/', '/') then Line
      else if t[0] == '"' then Str
      else if t[0] == '\'' then Chr
      else Code
    case Block => if Starts(t, '*', '/') then Code else Block
    case Line => if t[0] == '\n' then Code else Line
    case _ => if t[0] == '\\' && |t| >= 2 then m else if t[0] == Quote(m) then Code else m
  }

  /** The state at the end of a text scanned from state m. */
  function EndMode(t: string, m: Mode): Mode {
    if t == [] then m else EndMode(t[Width(t, m)..], Next(t, m))
  }

  // ----- stripping comments

  /** What one iteration of the stripper outputs. */
  function Emit(t: string, m: Mode): (e: string)
    requires t != []
    ensures |e| <= Width(t, m)
  {
    match m
    case Code => if Width(t, m) == 2 then [' '] else [t[0]]
    case Block => if t[0] == '\n' then ['\n'] else []
    case Line => if t[0] == '\n' then ['\n'] else []
    case _ => t[..Width(t, m)]
  }

  function Stripped(t: string, m: Mode): string {
    if t == [] then [] else Emit(t, m) + Stripped(t[Width(t, m)..], Next(t, m))
  }

  predicate Unterminated(m: Mode) {
    m == Block || m == Str || m == Chr
  }

  /** None stands for the unterminated-comment-or-literal error. */
  function Strip(t: string): Option<string> {
    if Unterminated(EndMode(t, Code)) then None else Some(Stripped(t, Code))
  }

  /** The body of the stripping loop: what is appended, how far to go on, and the next state. */
  method StripStep(text: string, index: nat, state: Mode) returns (appended: string, width: nat, state': Mode)
    requires index < |text|
    ensures var rest := text[index..];
      appended == Emit(rest, state) && width == Width(rest, state) && state' == Next(rest, state)
  {
    var ch := text[index];
    var following := if index + 1 < |text| then text[index + 1..index + 2] else [];
    appended, width, state' := [], 1, state;
    if state == Code {
      if ch == '/' && following == ['*'] {
        return [' '], 2, Block;
      }
      if ch == '/' && following == ['/'] {
        return [' '], 2, Line;
      }
      appended := [ch];
      if ch == '"' {
        state' := Str;
      } else if ch == '\'' {
        state' := Chr;
      }
    } else if state == Block {
      if ch == '*' && following == ['/'] {
        return [], 2, Code;
      }
      if ch == '\n' {
        appended := ['\n'];
      }
    } else if state == Line {
      if ch == '\n' {
        appended, state' := ['\n'], Code;
      }
    } else {
      appended := [ch];
      if ch == '\\' && index + 1 < |text| {
        return [ch, text[index + 1]], 2, state;
      }
      if ch == Quote(state) {
        state' := Code;
      }
    }
  }

  /** What remains to be output from index, told by one iteration and what remains after it. */
  lemma StripAfter(text: string, index: nat, state: Mode)
    requires index < |text|
    ensures var rest := text[index..];
      var w := Width(rest, state);
      index + w <= |text| &&
      Stripped(rest, state) == Emit(rest, state) + Stripped(text[index + w..], Next(rest, state)) &&
      EndMode(rest, state) == EndMode(text[index + w..], Next(rest, state))
  {
    var w := Width(text[index..], state);
    assert text[index..][w..] == text[index + w..];
  }

  lemma Regroup(a: string, b: string, c: string)
    ensures a + (b + c) == a + b + c
  {}

  method StripCComments(text: string) returns (r: Option<string>)
    ensures r == Strip(text)
  {
    var output: string, index, state := [], 0, Code;
    assert text[0..] == text;
    while index < |text|
      invariant index <= |text|
      invariant Stripped(text, Code) == output + Stripped(text[index..], state)
      invariant EndMode(text, Code) == EndMode(text[index..], state)
    {
      StripAfter(text, index, state);
      var appended, width, state' := StripStep(text, index, state);
      Regroup(output, appended, Stripped(text[index + width..], state'));
      output, index, state := output + appended, index + width, state';
    }
    assert text[index..] == [] && output + [] == output;
    if Unterminated(state) {
      return None;
    }
    return Some(output);
  }

  /** The state the output of a scan from m starts in. */
  function OutMode(m: Mode): Mode {
    if m == Block || m == Line then Code else m
  }

  /** No comment is ever entered. */
  predicate NoComment(t: string, m: Mode) {
    t == [] || (m != Block && m != Line && Next(t, m) != Block && Next(t, m) != Line &&
                NoComment(t[Width(t, m)..], Next(t, m)))
  }

  /** The characters of string and character literals, quotes included, in order. */
  function LiteralText(t: string, m: Mode): string {
    if t == [] then []
    else
      var rest := LiteralText(t[Width(t, m)..], Next(t, m));
      if m == Str || m == Chr then t[..Width(t, m)] + rest
      else if Next(t, m) == Str || Next(t, m) == Chr then [t[0]] + rest
      else rest
  }

  function Newlines(t: string): nat {
    if t == [] then 0 else (if t[0] == '\n' then 1 else 0) + Newlines(t[1..])
  }

  lemma {:induction false} NewlinesAppend(a: string, b: string)
    ensures Newlines(a + b) == Newlines(a) + Newlines(b)
  {
    if a == [] {
      assert a + b == b;
    } else {
      assert (a + b)[1..] == a[1..] + b;
      NewlinesAppend(a[1..], b);
    }
  }

  /** One iteration outputs every newline it consumes. */
  lemma NewlinesOfEmit(t: string, m: Mode)
    requires t != []
    ensures Newlines(Emit(t, m)) == Newlines(t[..Width(t, m)])
  {
    var n := Width(t, m);
    assert t[..n] == if n == 1 then [t[0]] else [t[0]] + [t[1]];
    NewlinesAppend([t[0]], if n == 1 then [] else [t[1]]);
  }

  /** Stripping keeps the number of newlines, from any state and even on unterminated text. */
  lemma {:induction false} StripKeepsNewlines(t: string, m: Mode)
    ensures Newlines(Stripped(t, m)) == Newlines(t)
  {
    if t != [] {
      var n := Width(t, m);
      NewlinesOfEmit(t, m);
      StripKeepsNewlines(t[n..], Next(t, m));
      NewlinesAppend(Emit(t, m), Stripped(t[n..], Next(t, m)));
      NewlinesAppend(t[..n], t[n..]);
      assert t == t[..n] + t[n..];
    }
  }

  /** In code the output goes on with the next character, or with the space a comment leaves. */
  lemma FirstOutput(t: string)
    requires t != []
    ensures Stripped(t, Code) != []
    ensures Stripped(t, Code)[0] == if Next(t, Code) == Block || Next(t, Code) == Line then ' ' else t[0]
  {}

  /** An iteration on the output of a terminated text repeats that output. */
  lemma OutputStep(t: string, m: Mode)
    requires t != [] && Emit(t, m) != [] && !Unterminated(EndMode(t, m))
    ensures var o := Stripped(t, m);
      o != [] && Width(o, OutMode(m)) == |Emit(t, m)| && Emit(o, OutMode(m)) == Emit(t, m) &&
      Next(o, OutMode(m)) == OutMode(Next(t, m))
    ensures Stripped(t, m)[|Emit(t, m)|..] == Stripped(t[Width(t, m)..], Next(t, m))
  {
    var e, rest := Emit(t, m), Stripped(t[Width(t, m)..], Next(t, m));
    assert Stripped(t, m) == e + rest && (e + rest)[|e|..] == rest;
    if m == Code {
      CodeOutputStep(t);
    } else if m == Str || m == Chr {
      LiteralOutputStep(t, m);
    }
  }

  lemma CodeOutputStep(t: string)
    requires t != []
    ensures var o, e := Stripped(t, Code), Emit(t, Code);
      o != [] && Width(o, Code) == 1 == |e| && Emit(o, Code) == e && Next(o, Code) == OutMode(Next(t, Code))
  {
    if Width(t, Code) == 1 && |t| > 1 {
      FirstOutput(t[1..]);
    }
  }

  lemma LiteralOutputStep(t: string, m: Mode)
    requires t != [] && (m == Str || m == Chr) && !Unterminated(EndMode(t, m))
    ensures var o := Stripped(t, m);
      o != [] && Width(o, m) == Width(t, m) && Emit(o, m) == Emit(t, m) && Next(o, m) == Next(t, m)
  {
    var n := Width(t, m);
    assert EndMode(t, m) == EndMode(t[n..], Next(t, m));
  }

  lemma StrippedStep(o: string, m: Mode)
    requires o != []
    ensures Stripped(o, m) == Emit(o, m) + Stripped(o[Width(o, m)..], Next(o, m))
    ensures EndMode(o, m) == EndMode(o[Width(o, m)..], Next(o, m))
  {}

  /** Stripping is idempotent: scanning the output outputs it unchanged and enters no comment. */
  lemma {:induction false} StripIdempotent(t: string, m: Mode)
    requires !Unterminated(EndMode(t, m))
    ensures var o := Stripped(t, m);
      Stripped(o, OutMode(m)) == o && NoComment(o, OutMode(m)) && EndMode(o, OutMode(m)) == Code
  {
    if t != [] {
      var n := Width(t, m);
      StripIdempotent(t[n..], Next(t, m));
      if Emit(t, m) != [] {
        OutputStep(t, m);
        StrippedStep(Stripped(t, m), OutMode(m));
      } else {
        assert Stripped(t, m) == Stripped(t[n..], Next(t, m));
      }
    }
  }

  lemma {:induction false} StrippedLength(t: string, m: Mode)
    ensures |Stripped(t, m)| <= |t|
    ensures m != Block && m != Line && !NoComment(t, m) ==> |Stripped(t, m)| < |t|
  {
    if t != [] {
      StrippedLength(t[Width(t, m)..], Next(t, m));
    }
  }

  lemma NoCommentEmit(t: string, m: Mode)
    requires t != [] && NoComment(t, m)
    ensures Emit(t, m) == t[..Width(t, m)]
  {
    assert t[..1] == [t[0]];
  }

  lemma Rejoin(t: string, n: nat)
    requires n <= |t|
    ensures t == t[..n] + t[n..]
  {}

  lemma {:induction false} NoCommentKept(t: string, m: Mode)
    requires NoComment(t, m)
    ensures Stripped(t, m) == t
  {
    if t != [] {
      NoCommentKept(t[Width(t, m)..], Next(t, m));
      NoCommentEmit(t, m);
      Rejoin(t, Width(t, m));
    }
  }

  /** Stripping changes nothing exactly when there is no comment. */
  lemma StripIdentityIff(t: string)
    ensures Stripped(t, Code) == t <==> NoComment(t, Code)
  {
    StrippedLength(t, Code);
    if NoComment(t, Code) {
      NoCommentKept(t, Code);
    }
  }

  /** What one iteration adds to the literals. */
  function LiteralHead(t: string, m: Mode): string
    requires t != []
  {
    if m == Str || m == Chr then Emit(t, m) else if Next(t, m) == Str || Next(t, m) == Chr then [t[0]] else []
  }

  lemma LiteralStep(t: string, m: Mode)
    requires t != []
    ensures LiteralText(t, m) == LiteralHead(t, m) + LiteralText(t[Width(t, m)..], Next(t, m))
  {}

  lemma HeadKept(t: string, m: Mode)
    requires t != [] && Emit(t, m) != [] && !Unterminated(EndMode(t, m))
    ensures Stripped(t, m) != [] && LiteralHead(Stripped(t, m), OutMode(m)) == LiteralHead(t, m)
  {
    OutputStep(t, m);
    if Next(t, m) == Str || Next(t, m) == Chr {
      FirstKept(t, m);
    }
  }

  /** The literals of a terminated text come out character for character. */
  lemma {:induction false} LiteralsKept(t: string, m: Mode)
    requires !Unterminated(EndMode(t, m))
    ensures LiteralText(Stripped(t, m), OutMode(m)) == LiteralText(t, m)
  {
    if t != [] {
      LiteralsKept(t[Width(t, m)..], Next(t, m));
      LiteralStep(t, m);
      if Emit(t, m) != [] {
        OutputStep(t, m);
        HeadKept(t, m);
        LiteralStep(Stripped(t, m), OutMode(m));
      } else {
        assert Stripped(t, m) == Stripped(t[Width(t, m)..], Next(t, m));
      }
    }
  }

  lemma FirstKept(t: string, m: Mode)
    requires t != [] && (Next(t, m) == Str || Next(t, m) == Chr)
    ensures Stripped(t, m) != [] && Stripped(t, m)[0] == t[0]
  {}

  // ----- balanced brackets

  /** The brackets counted; no scanner gives them another meaning. */
  predicate Brackets(open: char, close: char) {
    open != close && Plain(open) && Plain(close)
  }

  predicate Plain(c: char) {
    c != '/' && c != '*' && c != '"' && c != '\'' && c != '\\' && c != ' ' && c != '\n'
  }

  /** What one iteration adds to the depth. */
  function Delta(t: string, m: Mode, open: char, close: char): int
    requires t != []
  {
    if m != Code then 0 else if t[0] == open then 1 else if t[0] == close then -1 else 0
  }

  /** Opening minus closing brackets outside comments and literals. */
  function Depth(t: string, m: Mode, open: char, close: char): int {
    if t == [] then 0 else Delta(t, m, open, close) + Depth(t[Width(t, m)..], Next(t, m), open, close)
  }

  /** Stripping a terminated text keeps its depth. */
  lemma {:induction false} DepthOfStripped(t: string, m: Mode, open: char, close: char)
    requires !Unterminated(EndMode(t, m)) && Brackets(open, close)
    ensures Depth(Stripped(t, m), OutMode(m), open, close) == Depth(t, m, open, close)
  {
    if t != [] {
      DepthOfStripped(t[Width(t, m)..], Next(t, m), open, close);
      if Emit(t, m) != [] {
        OutputStep(t, m);
        DepthStep(Stripped(t, m), OutMode(m), open, close);
        EmitDelta(t, m, open, close);
      } else {
        assert Stripped(t, m) == Stripped(t[Width(t, m)..], Next(t, m));
      }
    }
  }

  lemma DepthStep(t: string, m: Mode, open: char, close: char)
    requires t != []
    ensures Depth(t, m, open, close) ==
      Delta(t, m, open, close) + Depth(t[Width(t, m)..], Next(t, m), open, close)
  {}

  lemma EmitDelta(t: string, m: Mode, open: char, close: char)
    requires t != [] && Emit(t, m) != [] && Brackets(open, close)
    ensures Delta(Stripped(t, m), OutMode(m), open, close) == Delta(t, m, open, close)
  {}

  /** How many characters there are up to the bracket that brings the depth d back to zero. */
  function CloseAt(t: string, m: Mode, d: int, open: char, close: char): (r: Option<nat>)
    ensures r.Some? ==> 0 < r.value <= |t|
  {
    if t == [] then None
    else
      var d' := d + Delta(t, m, open, close);
      if m == Code && t[0] == close && d' == 0 then Some(1)
      else
        Shift(Width(t, m), CloseAt(t[Width(t, m)..], Next(t, m), d', open, close))
  }

  function Shift(n: nat, r: Option<nat>): Option<nat> {
    match r
    case None => None
    case Some(k) => Some(n + k)
  }

  /** A prefix that is cut inside an iteration has the depth from before it. */
  lemma DepthOfPrefix(t: string, m: Mode, j: nat, open: char, close: char)
    requires t != [] && j <= |t| && Brackets(open, close)
    ensures Depth(t[..j], m, open, close) ==
      if j < Width(t, m) then 0
      else Delta(t, m, open, close) + Depth(t[Width(t, m)..][..j - Width(t, m)], Next(t, m), open, close)
  {
    var n := Width(t, m);
    if j >= n {
      assert t[..j][n..] == t[n..][..j - n];
    } else if j == 1 {
      assert Depth(t[..1], m, open, close) == Delta(t[..1], m, open, close) + Depth([], Next(t[..1], m), open, close);
    }
  }

  /** r is the length of the shortest prefix that balances a depth d, which leaves the scanner in code,
      with every shorter prefix still open; None says that every prefix stays open. */
  ghost predicate IsShortest(t: string, m: Mode, d: int, open: char, close: char, r: Option<nat>) {
    match r
    case None => forall j | 0 <= j <= |t| :: d + Depth(t[..j], m, open, close) > 0
    case Some(n) =>
      0 < n <= |t| && d + Depth(t[..n], m, open, close) == 0 && EndMode(t[..n], m) == Code &&
      forall j | 0 <= j < n :: d + Depth(t[..j], m, open, close) > 0
  }

  lemma ShortestHere(t: string, d: int, open: char, close: char)
    requires d > 0 && Brackets(open, close) && t != [] && t[0] == close && d + Delta(t, Code, open, close) == 0
    ensures IsShortest(t, Code, d, open, close, Some(1))
  {
    DepthOfPrefix(t, Code, 1, open, close);
    assert t[1..][..0] == [];
    EndModeOfPrefix(t, Code, 1);
  }

  lemma ShortestLater(t: string, m: Mode, d: int, open: char, close: char, r: Option<nat>)
    requires d > 0 && Brackets(open, close) && t != []
    requires IsShortest(t[Width(t, m)..], Next(t, m), d + Delta(t, m, open, close), open, close, r)
    ensures IsShortest(t, m, d, open, close, Shift(Width(t, m), r))
  {
    var w, end := Width(t, m), if r.Some? then Width(t, m) + r.value else |t|;
    forall j | 0 <= j <= end
      ensures (r.Some? && j == end) || d + Depth(t[..j], m, open, close) > 0
      ensures r.Some? && j == end ==> d + Depth(t[..j], m, open, close) == 0
    {
      DepthOfPrefix(t, m, j, open, close);
    }
    if r.Some? {
      EndModeOfPrefix(t, m, end);
    }
  }

  /** The loop's bracket ends the shortest balanced prefix, from any positive depth and any state. */
  lemma {:induction false} CloseIsShortest(t: string, m: Mode, d: int, open: char, close: char)
    requires d > 0 && Brackets(open, close)
    ensures IsShortest(t, m, d, open, close, CloseAt(t, m, d, open, close))
  {
    if t != [] {
      var rest, m', d' := t[Width(t, m)..], Next(t, m), d + Delta(t, m, open, close);
      if m == Code && t[0] == close && d' == 0 {
        ShortestHere(t, d, open, close);
      } else {
        CloseIsShortest(rest, m', d', open, close);
        ShortestLater(t, m, d, open, close, CloseAt(rest, m', d', open, close));
      }
    }
  }

  lemma SameIteration(t: string, m: Mode, j: nat)
    requires t != [] && Width(t, m) <= j <= |t|
    ensures Width(t[..j], m) == Width(t, m) && Next(t[..j], m) == Next(t, m)
  {}

  lemma EndModeOfPrefix(t: string, m: Mode, j: nat)
    requires t != [] && Width(t, m) <= j <= |t|
    ensures EndMode(t[..j], m) == EndMode(t[Width(t, m)..][..j - Width(t, m)], Next(t, m))
  {
    SameIteration(t, m, j);
    assert t[..j][Width(t, m)..] == t[Width(t, m)..][..j - Width(t, m)];
  }

  /** What is found from index, told by what is found from where one iteration leads. */
  lemma CloseAtStep(text: string, index: nat, m: Mode, d: int, open: char, close: char)
    requires index < |text|
    ensures var rest := text[index..];
      var w, d' := Width(rest, m), d + Delta(rest, m, open, close);
      index + w <= |text| &&
      CloseAt(rest, m, d, open, close) ==
        if m == Code && rest[0] == close && d' == 0 then Some(1)
        else Shift(w, CloseAt(text[index + w..], Next(rest, m), d', open, close))
  {
    var w := Width(text[index..], m);
    assert text[index..][w..] == text[index + w..];
  }

  /** The meaning of one iteration; an escape at the very end steps past the text. */
  predicate IsBracketStep(text: string, index: nat, depth: int, state: Mode, open: char, close: char,
    found: bool, index': nat, depth': int, state': Mode)
    requires index < |text|
  {
    var rest := text[index..];
    depth' == depth + Delta(rest, state, open, close) &&
    (found <==> state == Code && rest[0] == close && depth' == 0) &&
    if index' <= |text| then index' == index + Width(rest, state) && (!found ==> state' == Next(rest, state))
    else index + Width(rest, state) == |text| && state != Code
  }

  /** The index of the bracket found from index on; an index past the text finds none. */
  function Find(text: string, index: nat, depth: int, state: Mode, open: char, close: char): Option<nat> {
    if index > |text| then None
    else
      match CloseAt(text[index..], state, depth, open, close)
      case None => None
      case Some(n) => Some(index + n - 1)
  }

  lemma FindStep(text: string, index: nat, depth: int, state: Mode, open: char, close: char)
    requires index < |text|
    ensures var rest := text[index..];
      var w, d' := Width(rest, state), depth + Delta(rest, state, open, close);
      Find(text, index, depth, state, open, close) ==
        if state == Code && rest[0] == close && d' == 0 then Some(index)
        else Find(text, index + w, d', Next(rest, state), open, close)
  {
    CloseAtStep(text, index, state, depth, open, close);
  }

  lemma FindEnd(text: string, depth: int, state: Mode, open: char, close: char)
    ensures Find(text, |text|, depth, state, open, close) == None
  {}

  lemma FindAfter(text: string, index: nat, depth: int, state: Mode, open: char, close: char,
    found: bool, index': nat, depth': int, state': Mode)
    requires index < |text| && IsBracketStep(text, index, depth, state, open, close, found, index', depth', state')
    ensures index < index'
    ensures Find(text, index, depth, state, open, close) ==
      if found then Some(index) else Find(text, index', depth', state', open, close)
  {
    FindStep(text, index, depth, state, open, close);
    FindEnd(text, depth', Next(text[index..], state), open, close);
  }

  /** One iteration of the bracket scanners. */
  method BracketStep(text: string, index: nat, depth: int, state: Mode, open: char, close: char)
    returns (found: bool, index': nat, depth': int, state': Mode)
    requires index < |text| && Brackets(open, close)
    ensures IsBracketStep(text, index, depth, state, open, close, found, index', depth', state')
  {
    var ch := text[index];
    var following := if index + 1 < |text| then text[index + 1..index + 2] else [];
    found, index', depth', state' := false, index + 1, depth, state;
    if state == Code {
      if ch == '/' && following == ['*'] {
        return false, index + 2, depth, Block;
      }
      if ch == '/' && following == ['/'] {
        return false, index + 2, depth, Line;
      }
      if ch == '"' {
        state' := Str;
      } else if ch == '\'' {
        state' := Chr;
      } else if ch == open {
        depth' := depth + 1;
      } else if ch == close {
        depth' := depth - 1;
        found := depth' == 0;
      }
    } else if state == Block {
      if ch == '*' && following == ['/'] {
        return false, index + 2, depth, Code;
      }
    } else if state == Line {
      if ch == '\n' {
        state' := Code;
      }
    } else {
      if ch == '\\' {
        return false, index + 2, depth, state;
      }
      if ch == Quote(state) {
        state' := Code;
      }
    }
  }

  /** The loop both extractors share: the index of the balancing bracket, or the unterminated error. */
  method ScanBalanced(text: string, opening: nat, open: char, close: char) returns (r: Option<nat>)
    requires opening <= |text| && Brackets(open, close)
    ensures match CloseAt(text[opening..], Code, 0, open, close)
            case None => r == None
            case Some(n) => r == Some(opening + n - 1)
  {
    var depth, state, index := 0, Code, opening;
    while index < |text|
      invariant opening <= index
      invariant Find(text, opening, 0, Code, open, close) == Find(text, index, depth, state, open, close)
      decreases |text| - index
    {
      var found, index', depth', state' := BracketStep(text, index, depth, state, open, close);
      FindAfter(text, index, depth, state, open, close, found, index', depth', state');
      if found {
        return Some(index);
      }
      index, depth, state := index', depth', state';
    }
    return None;
  }

  /** The index of the parenthesis matching the one at opening. */
  method MatchingParen(text: string, opening: nat) returns (r: Option<nat>)
    requires opening < |text| && text[opening] == '('
    ensures IsBalancing(text, opening, '(', ')', r)
  {
    r := ScanBalanced(text, opening, '(', ')');
    BalancedFrom(text, opening, '(', ')');
  }

  /** The text from start through the brace matching the one at opening. */
  method BalancedBody(text: string, start: nat, opening: nat) returns (r: Option<string>)
    requires start <= opening < |text| && text[opening] == '{'
    ensures r == None ==> IsBalancing(text, opening, '{', '}', None)
    ensures r.Some? ==>
      var k := start + |r.value| - 1;
      opening <= k < |text| && r.value == text[start..k + 1] && IsBalancing(text, opening, '{', '}', Some(k))
  {
    var i := ScanBalanced(text, opening, '{', '}');
    BalancedFrom(text, opening, '{', '}');
    match i
    case None => r := None;
    case Some(k) => r := Some(text[start..k + 1]);
  }

  /** r is the end of the shortest balanced text from opening, or None when no prefix balances. */
  ghost predicate IsBalancing(text: string, opening: nat, open: char, close: char, r: Option<nat>)
    requires opening < |text|
  {
    match r
    case None =>
      forall j | opening < j <= |text| :: Depth(text[opening..j], Code, open, close) > 0
    case Some(k) =>
      opening <= k < |text| && Depth(text[opening..k + 1], Code, open, close) == 0 &&
      forall j | opening < j <= k :: Depth(text[opening..j], Code, open, close) > 0
  }

  /** What the loop returns, from an opening bracket: the shortest balanced text. */
  lemma BalancedFrom(text: string, opening: nat, open: char, close: char)
    requires opening < |text| && text[opening] == open && Brackets(open, close)
    ensures match CloseAt(text[opening..], Code, 0, open, close)
      case None => IsBalancing(text, opening, open, close, None)
      case Some(n) =>
        0 < n <= |text| - opening && IsBalancing(text, opening, open, close, Some(opening + n - 1)) &&
        EndMode(text[opening..opening + n], Code) == Code
  {
    var rest := text[opening + 1..];
    CloseAtStep(text, opening, Code, 0, open, close);
    CloseIsShortest(rest, Code, 1, open, close);
    forall j | opening < j <= |text|
      ensures Depth(text[opening..j], Code, open, close) == 1 + Depth(rest[..j - opening - 1], Code, open, close) &&
              EndMode(text[opening..j], Code) == EndMode(rest[..j - opening - 1], Code)
    {
      PrefixFrom(text, opening, j, open, close);
    }
  }

  lemma PrefixFrom(text: string, opening: nat, j: nat, open: char, close: char)
    requires opening < j <= |text| && text[opening] == open && Brackets(open, close)
    ensures var rest := text[opening + 1..];
      Depth(text[opening..j], Code, open, close) == 1 + Depth(rest[..j - opening - 1], Code, open, close) &&
      EndMode(text[opening..j], Code) == EndMode(rest[..j - opening - 1], Code)
  {
    assert text[opening..j][1..] == text[opening + 1..][..j - opening - 1];
    DepthStep(text[opening..j], Code, open, close);
  }

  /** The body found always strips, and its stripped text balances too. */
  lemma BodyStrips(text: string, opening: nat, open: char, close: char)
    requires opening < |text| && text[opening] == open && Brackets(open, close)
    ensures match CloseAt(text[opening..], Code, 0, open, close)
      case None => true
      case Some(n) =>
        opening + n <= |text| && Strip(text[opening..opening + n]).Some? &&
        Depth(Strip(text[opening..opening + n]).value, Code, open, close) == 0
  {
    BalancedFrom(text, opening, open, close);
    match CloseAt(text[opening..], Code, 0, open, close)
    case None =>
    case Some(n) => DepthOfStripped(text[opening..opening + n], Code, open, close);
  }

  // ----- ordered token positions

  /** p gives increasing positions at which the names occur in the tokens. */
  predicate Occurs<T(==)>(tokens: seq<T>, names: seq<T>, p: seq<nat>) {
    |p| == |names| && (forall i | 0 <= i < |p| :: p[i] < |tokens| && tokens[p[i]] == names[i]) &&
    forall i | 0 < i < |p| :: p[i - 1] < p[i]
  }

  /** tokens.index(name, cursor), with None for the ValueError. */
  method IndexFrom<T(==)>(tokens: seq<T>, name: T, cursor: nat) returns (r: Option<nat>)
    ensures r.Some? ==> cursor <= r.value < |tokens| && tokens[r.value] == name
    ensures forall j | cursor <= j < (if r.Some? then r.value else |tokens|) :: tokens[j] != name
  {
    var j := cursor;
    while j < |tokens|
      invariant cursor <= j && forall i | cursor <= i < j && i < |tokens| :: tokens[i] != name
    {
      if tokens[j] == name {
        return Some(j);
      }
      j := j + 1;
    }
    return None;
  }

  /** The greedy search finds the occurrence that is earliest at every name, and returns no positions
      for a nonempty list exactly when it does not occur at all. */
  method OrderedTokenPositions<T(==)>(tokens: seq<T>, names: seq<T>) returns (positions: seq<nat>)
    ensures positions != [] || names == [] ==> Occurs(tokens, names, positions)
    ensures positions == [] && names != [] ==> forall p :: !Occurs(tokens, names, p)
    ensures forall p | positions != [] && Occurs(tokens, names, p) ::
      forall i | 0 <= i < |positions| :: positions[i] <= p[i]
  {
    positions := [];
    var cursor := 0;
    for k := 0 to |names|
      invariant Occurs(tokens, names[..k], positions)
      invariant cursor == if k == 0 then 0 else positions[k - 1] + 1
      invariant forall p | Occurs(tokens, names, p) :: forall i | 0 <= i < k :: positions[i] <= p[i]
    {
      var position := IndexFrom(tokens, names[k], cursor);
      forall p | Occurs(tokens, names, p)
        ensures position.Some? && position.value <= p[k]
      {
        if k > 0 {
          assert positions[k - 1] <= p[k - 1] < p[k];
        }
        assert tokens[p[k]] == names[k] && cursor <= p[k];
      }
      if position == None {
        return [];
      }
      positions := positions + [position.value];
      cursor := position.value + 1;
    }
    assert names[..|names|] == names;
  }
}
