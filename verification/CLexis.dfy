/** The lexical elements the scanners tell apart: ordinary characters, comments and literals. */
module CLexis {
  import opened Common
  import opened Scanner

  /** Comments and literals carry what stands between their delimiters. */
  datatype Item =
    | Ordinary(c: char)
    | BlockComment(body: string)
    | LineComment(body: string)
    | StringLiteral(body: string)
    | CharLiteral(body: string)

  function Text(item: Item): string {
    match item
    case Ordinary(c) => [c]
    case BlockComment(body) => "/*" + body + "*/"
    case LineComment(body) => "//" + body
    case StringLiteral(body) => ['"'] + body + ['"']
    case CharLiteral(body) => ['\''] + body + ['\'']
  }

  function TextOf(items: seq<Item>): string {
    if items == [] then [] else Text(items[0]) + TextOf(items[1..])
  }

  /** No star right before a slash. */
  predicate BlockBody(body: string) {
    forall i | 0 < i < |body| :: !(body[i - 1] == '*' && body[i] == '/')
  }

  /** Characters other than the quote and the backslash, and escapes of one character. The scanners also
      take a newline here, which C does not, and know no line splicing. */
  predicate LiteralBody(body: string, quote: char) {
    body == [] ||
    if body[0] == '\\' then |body| >= 2 && LiteralBody(body[2..], quote)
    else body[0] != quote && LiteralBody(body[1..], quote)
  }

  predicate ItemOk(item: Item) {
    match item
    case Ordinary(c) => c != '"' && c != '\''
    case BlockComment(body) => BlockBody(body)
    case LineComment(body) => '\n' !in body
    case StringLiteral(body) => LiteralBody(body, '"')
    case CharLiteral(body) => LiteralBody(body, '\'')
  }

  /** What may stand after an item: a lone slash opens no comment, and a line comment ends with the line. */
  predicate Follows(item: Item, rest: string) {
    rest == [] ||
    match item
    case Ordinary(c) => c == '/' ==> rest[0] != '/' && rest[0] != '*'
    case LineComment(_) => rest[0] == '\n'
    case _ => true
  }

  predicate ItemsOk(items: seq<Item>) {
    items == [] || (ItemOk(items[0]) && Follows(items[0], TextOf(items[1..])) && ItemsOk(items[1..]))
  }

  function NewlinesOf(t: string): string {
    if t == [] then [] else (if t[0] == '\n' then ['\n'] else []) + NewlinesOf(t[1..])
  }

  /** A comment becomes a space and keeps its newlines; everything else stays as it is. */
  function ImageOf(item: Item): string {
    match item
    case BlockComment(body) => [' '] + NewlinesOf(body)
    case LineComment(_) => [' ']
    case _ => Text(item)
  }

  function ImagesOf(items: seq<Item>): string {
    if items == [] then [] else ImageOf(items[0]) + ImagesOf(items[1..])
  }

  /** Only ordinary characters open and close. */
  function ItemDepth(items: seq<Item>, open: char, close: char): int {
    if items == [] then 0
    else
      (if items[0] == Ordinary(open) then 1 else if items[0] == Ordinary(close) then -1 else 0) +
      ItemDepth(items[1..], open, close)
  }

  // ----- scanning past one item

  /** Scanning t from mode m outputs out and goes on with rest from mode m', at the same depth. */
  ghost predicate Passes(t: string, m: Mode, out: string, rest: string, m': Mode) {
    |rest| <= |t| && Stripped(t, m) == out + Stripped(rest, m') && EndMode(t, m) == EndMode(rest, m') &&
    forall open, close | Brackets(open, close) :: SameDepth(t, m, rest, m', open, close)
  }

  ghost predicate SameDepth(t: string, m: Mode, rest: string, m': Mode, open: char, close: char)
    requires |rest| <= |t|
  {
    Depth(t, m, open, close) == Depth(rest, m', open, close) &&
    forall d :: CloseAt(t, m, d, open, close) == Shift(|t| - |rest|, CloseAt(rest, m', d, open, close))
  }

  /** An iteration that is not at an ordinary character. */
  lemma PassOne(t: string, m: Mode)
    requires t != [] && (m == Code ==> !Plain(t[0]))
    ensures Passes(t, m, Emit(t, m), t[Width(t, m)..], Next(t, m))
  {
    forall open, close | Brackets(open, close)
      ensures SameDepth(t, m, t[Width(t, m)..], Next(t, m), open, close)
    {
      DepthStep(t, m, open, close);
    }
  }

  lemma FoundOn(a: nat, b: nat, r: Option<nat>, r': Option<nat>, r'': Option<nat>)
    requires r == Shift(a, r') && r' == Shift(b, r'')
    ensures r == Shift(a + b, r'')
  {}

  lemma SameDepthOn(t: string, m: Mode, t': string, m': Mode, rest: string, m'': Mode, open: char, close: char)
    requires |rest| <= |t'| <= |t|
    requires SameDepth(t, m, t', m', open, close) && SameDepth(t', m', rest, m'', open, close)
    ensures SameDepth(t, m, rest, m'', open, close)
  {
    forall d ensures CloseAt(t, m, d, open, close) == Shift(|t| - |rest|, CloseAt(rest, m'', d, open, close)) {
      var r, r', r'' := CloseAt(t, m, d, open, close), CloseAt(t', m', d, open, close), CloseAt(rest, m'', d, open, close);
      FoundOn(|t| - |t'|, |t'| - |rest|, r, r', r'');
    }
  }

  lemma PassOn(t: string, m: Mode, out: string, t': string, m': Mode, out': string, rest: string, m'': Mode)
    requires Passes(t, m, out, t', m') && Passes(t', m', out', rest, m'')
    ensures Passes(t, m, out + out', rest, m'')
  {
    Regroup(out, out', Stripped(rest, m''));
    forall open, close | Brackets(open, close) ensures SameDepth(t, m, rest, m'', open, close) {
      SameDepthOn(t, m, t', m', rest, m'', open, close);
    }
  }

  lemma {:induction false} PassBlock(body: string, rest: string)
    requires BlockBody(body)
    ensures Passes(body + "*/" + rest, Block, NewlinesOf(body), rest, Code)
  {
    var t := body + "*/" + rest;
    PassOne(t, Block);
    if body == [] {
      assert t[2..] == rest;
    } else {
      assert t[1..] == body[1..] + "*/" + rest;
      PassBlock(body[1..], rest);
      PassOn(t, Block, Emit(t, Block), t[1..], Block, NewlinesOf(body[1..]), rest, Code);
    }
  }

  /** A character of a literal: an escape, or anything but the quote. */
  predicate Piece(p: string, quote: char) {
    (|p| == 2 && p[0] == '\\') || (|p| == 1 && p[0] != '\\' && p[0] != quote)
  }

  lemma PieceFirst(body: string, quote: char) returns (p: string, more: string)
    requires LiteralBody(body, quote) && body != []
    ensures Piece(p, quote) && body == p + more && LiteralBody(more, quote) && |more| < |body|
  {
    var n := if body[0] == '\\' then 2 else 1;
    p, more := body[..n], body[n..];
  }

  lemma PiecePut(p: string, more: string, quote: char)
    requires Piece(p, quote) && LiteralBody(more, quote)
    ensures LiteralBody(p + more, quote)
  {
    assert (p + more)[|p|..] == more;
  }

  lemma PassPiece(p: string, m: Mode, rest: string)
    requires (m == Str || m == Chr) && Piece(p, Quote(m))
    ensures Passes(p + rest, m, p, rest, m)
  {
    var t := p + rest;
    PassOne(t, m);
    assert t[..|p|] == p && t[|p|..] == rest;
  }

  lemma PassQuote(m: Mode, rest: string)
    requires m == Str || m == Chr
    ensures Passes([Quote(m)] + rest, m, [Quote(m)], rest, Code)
  {
    var t := [Quote(m)] + rest;
    PassOne(t, m);
    assert t[..1] == [Quote(m)] && t[1..] == rest;
  }

  lemma {:induction false} PassLiteral(body: string, m: Mode, rest: string)
    requires (m == Str || m == Chr) && LiteralBody(body, Quote(m))
    ensures Passes(body + [Quote(m)] + rest, m, body + [Quote(m)], rest, Code)
    decreases |body|
  {
    var q := [Quote(m)];
    if body == [] {
      PassQuote(m, rest);
      assert body + q == q;
    } else {
      var p, more := PieceFirst(body, Quote(m));
      PassLiteral(more, m, rest);
      PassPiece(p, m, more + q + rest);
      JoinPiece(body, p, more, q, rest);
      PassOn(body + q + rest, m, p, more + q + rest, m, more + q, rest, Code);
    }
  }

  lemma JoinPiece(body: string, p: string, more: string, q: string, rest: string)
    requires body == p + more
    ensures p + (more + q) == body + q && p + (more + q + rest) == body + q + rest
  {}

  /** A line comment runs to the end of the text, or to the newline that ends it. */
  lemma {:induction false} PassLine(body: string, rest: string)
    requires '\n' !in body && (rest == [] || rest[0] == '\n')
    ensures Passes(body + rest, Line, [], rest, if rest == [] then Line else Code)
  {
    var t := body + rest;
    if body != [] {
      PassOne(t, Line);
      assert t[1..] == body[1..] + rest;
      PassLine(body[1..], rest);
      PassOn(t, Line, [], t[1..], Line, [], rest, if rest == [] then Line else Code);
    } else {
      assert t == rest;
      if rest != [] {
        AtNewline(rest);
      }
    }
  }

  /** At a newline a line comment and code go on alike. */
  lemma AtNewline(t: string)
    requires t != [] && t[0] == '\n'
    ensures Passes(t, Line, [], t, Code)
  {
    forall open, close | Brackets(open, close) ensures SameDepth(t, Line, t, Code, open, close) {
      DepthStep(t, Line, open, close);
      DepthStep(t, Code, open, close);
    }
  }

  /** The mode at the end of an item. */
  function ModeAfter(item: Item, rest: string): Mode {
    if item.LineComment? && rest == [] then Line else Code
  }

  lemma PassBlockComment(body: string, rest: string)
    requires BlockBody(body)
    ensures Passes("/*" + body + "*/" + rest, Code, [' '] + NewlinesOf(body), rest, Code)
  {
    var t := "/*" + body + "*/" + rest;
    assert t[2..] == body + "*/" + rest;
    PassOne(t, Code);
    PassBlock(body, rest);
    PassOn(t, Code, [' '], t[2..], Block, NewlinesOf(body), rest, Code);
  }

  lemma PassLineComment(body: string, rest: string)
    requires '\n' !in body && (rest == [] || rest[0] == '\n')
    ensures Passes("//" + body + rest, Code, [' '], rest, if rest == [] then Line else Code)
  {
    var t := "//" + body + rest;
    assert t[2..] == body + rest;
    PassOne(t, Code);
    PassLine(body, rest);
    PassOn(t, Code, [' '], t[2..], Line, [], rest, if rest == [] then Line else Code);
    assert [' '] + [] == [' '];
  }

  lemma PassQuoted(body: string, m: Mode, rest: string)
    requires (m == Str || m == Chr) && LiteralBody(body, Quote(m))
    ensures Passes([Quote(m)] + body + [Quote(m)] + rest, Code, [Quote(m)] + body + [Quote(m)], rest, Code)
  {
    var q := [Quote(m)];
    var t := q + body + q + rest;
    assert t[1..] == body + q + rest;
    PassOne(t, Code);
    PassLiteral(body, m, rest);
    PassOn(t, Code, q, t[1..], m, body + q, rest, Code);
    Regroup(q, body, q);
  }

  /** Every comment and literal is passed as a whole. */
  lemma PassItem(item: Item, rest: string)
    requires ItemOk(item) && Follows(item, rest) && !item.Ordinary?
    ensures Passes(Text(item) + rest, Code, ImageOf(item), rest, ModeAfter(item, rest))
  {
    match item
    case BlockComment(body) => PassBlockComment(body, rest);
    case LineComment(body) => PassLineComment(body, rest);
    case StringLiteral(body) => PassQuoted(body, Str, rest);
    case CharLiteral(body) => PassQuoted(body, Chr, rest);
  }

  // ----- a whole list of items

  /** Stripping the text of an item list gives the images of its items. */
  lemma {:induction false} StripItems(items: seq<Item>)
    requires ItemsOk(items)
    ensures Strip(TextOf(items)) == Some(ImagesOf(items))
    ensures Stripped(TextOf(items), Code) == ImagesOf(items) && !Unterminated(EndMode(TextOf(items), Code))
  {
    if items != [] {
      var item, rest := items[0], TextOf(items[1..]);
      StripItems(items[1..]);
      if item.Ordinary? {
        assert (Text(item) + rest)[1..] == rest;
      } else {
        PassItem(item, rest);
      }
    }
  }

  /** Only its ordinary characters count for the depth. */
  lemma {:induction false} DepthOfItems(items: seq<Item>, open: char, close: char)
    requires ItemsOk(items) && Brackets(open, close)
    ensures Depth(TextOf(items), Code, open, close) == ItemDepth(items, open, close)
  {
    if items != [] {
      var item, rest := items[0], TextOf(items[1..]);
      DepthOfItems(items[1..], open, close);
      if item.Ordinary? {
        assert (Text(item) + rest)[1..] == rest;
      } else {
        PassItem(item, rest);
        assert SameDepth(Text(item) + rest, Code, rest, ModeAfter(item, rest), open, close);
      }
    }
  }

  // ----- every terminated text is a list of items

  lemma {:induction false} SplitBlock(t: string) returns (body: string, rest: string)
    requires !Unterminated(EndMode(t, Block))
    ensures t == body + "*/" + rest && BlockBody(body) && EndMode(rest, Code) == EndMode(t, Block)
  {
    if Starts(t, '*', '/') {
      body, rest := [], t[2..];
    } else {
      body, rest := SplitBlock(t[1..]);
      assert t[1..][..|body|] == body;
      body := [t[0]] + body;
      assert t == body + "*/" + rest;
    }
  }

  lemma {:induction false} SplitLiteral(t: string, m: Mode) returns (body: string, rest: string)
    requires (m == Str || m == Chr) && !Unterminated(EndMode(t, m))
    ensures t == body + [Quote(m)] + rest && LiteralBody(body, Quote(m)) && EndMode(rest, Code) == EndMode(t, m)
    decreases |t|
  {
    if t[0] == Quote(m) {
      body, rest := [], t[1..];
    } else {
      var p, after := FirstPiece(t, m);
      body, rest := SplitLiteral(after, m);
      PiecePut(p, body, Quote(m));
      Join3(p, body, [Quote(m)], rest);
      body := p + body;
    }
  }

  lemma Join3(a: string, b: string, c: string, d: string)
    ensures a + (b + c + d) == a + b + c + d
  {}

  lemma FirstPiece(t: string, m: Mode) returns (p: string, after: string)
    requires (m == Str || m == Chr) && !Unterminated(EndMode(t, m)) && t != [] && t[0] != Quote(m)
    ensures Piece(p, Quote(m)) && t == p + after && |after| < |t| && EndMode(after, m) == EndMode(t, m)
  {
    var n := Width(t, m);
    p, after := t[..n], t[n..];
    assert EndMode(t, m) == EndMode(after, m);
  }

  lemma {:induction false} SplitLine(t: string) returns (body: string, rest: string)
    requires !Unterminated(EndMode(t, Line))
    ensures t == body + rest && '\n' !in body && (rest == [] || rest[0] == '\n')
    ensures !Unterminated(EndMode(rest, Code))
  {
    if t == [] || t[0] == '\n' {
      body, rest := [], t;
      assert t != [] ==> EndMode(t, Line) == EndMode(t[1..], Code) == EndMode(t, Code);
    } else {
      body, rest := SplitLine(t[1..]);
      body := [t[0]] + body;
      assert t == body + rest;
    }
  }

  /** A text at a comment or literal starts with an item. */
  lemma FirstDelimited(t: string) returns (item: Item, rest: string)
    requires t != [] && !Unterminated(EndMode(t, Code)) && Next(t, Code) != Code
    ensures t == Text(item) + rest && ItemOk(item) && Follows(item, rest) && !Unterminated(EndMode(rest, Code))
  {
    var after := t[Width(t, Code)..];
    OpensWith(t);
    match Next(t, Code)
    case Block =>
      var body;
      body, rest := SplitBlock(after);
      item := BlockComment(body);
      Join3("/*", body, "*/", rest);
    case Line =>
      var body;
      body, rest := SplitLine(after);
      item := LineComment(body);
      Regroup("//", body, rest);
    case Str =>
      var body;
      body, rest := SplitLiteral(after, Str);
      item := StringLiteral(body);
      Join3(['"'], body, ['"'], rest);
    case Chr =>
      var body;
      body, rest := SplitLiteral(after, Chr);
      item := CharLiteral(body);
      Join3(['\''], body, ['\''], rest);
  }

  lemma OpensWith(t: string)
    requires t != []
    ensures var after := t[Width(t, Code)..];
      EndMode(t, Code) == EndMode(after, Next(t, Code)) &&
      match Next(t, Code)
      case Code => after == t[1..]
      case Block => t == "/*" + after
      case Line => t == "//" + after
      case Str => t == ['"'] + after
      case Chr => t == ['\''] + after
  {}

  /** The item a text in code starts with. */
  lemma FirstItem(t: string) returns (item: Item, rest: string)
    requires t != [] && !Unterminated(EndMode(t, Code))
    ensures t == Text(item) + rest && ItemOk(item) && Follows(item, rest) && |rest| < |t|
    ensures !Unterminated(EndMode(rest, Code))
  {
    if Next(t, Code) == Code {
      item, rest := Ordinary(t[0]), t[1..];
    } else {
      item, rest := FirstDelimited(t);
      TextNotEmpty(item);
    }
  }

  lemma {:induction false} Itemize(t: string) returns (items: seq<Item>)
    requires !Unterminated(EndMode(t, Code))
    ensures ItemsOk(items) && TextOf(items) == t
    decreases |t|
  {
    if t == [] {
      return [];
    }
    var item, rest := FirstItem(t);
    var more := Itemize(rest);
    items := [item] + more;
    assert items[1..] == more;
  }

  /** A text strips exactly when it is a list of items, and then to the images of those items, whichever
      list it is; an unterminated comment or literal is no item. */
  lemma StripIsItems(t: string)
    ensures Strip(t).Some? <==> exists items :: ItemsOk(items) && TextOf(items) == t
    ensures forall items | ItemsOk(items) && TextOf(items) == t :: Strip(t) == Some(ImagesOf(items))
  {
    if Strip(t).Some? {
      var items := Itemize(t);
    }
    forall items | ItemsOk(items) && TextOf(items) == t ensures Strip(t) == Some(ImagesOf(items)) {
      StripItems(items);
    }
  }

  // ----- the matching bracket

  function ItemDelta(item: Item, open: char, close: char): int {
    if item == Ordinary(open) then 1 else if item == Ordinary(close) then -1 else 0
  }

  /** How many items there are up to the ordinary character that brings the depth d back to zero. */
  function ItemClose(items: seq<Item>, d: int, open: char, close: char): Option<nat> {
    if items == [] then None
    else
      var d' := d + ItemDelta(items[0], open, close);
      if items[0] == Ordinary(close) && d' == 0 then Some(1) else Shift(1, ItemClose(items[1..], d', open, close))
  }

  lemma TextNotEmpty(item: Item)
    ensures Text(item) != []
  {}

  lemma CloseOrdinary(c: char, tail: string, d: int, open: char, close: char)
    requires ItemOk(Ordinary(c)) && Follows(Ordinary(c), tail) && Brackets(open, close)
    ensures var d' := d + ItemDelta(Ordinary(c), open, close);
      CloseAt([c] + tail, Code, d, open, close) ==
        if c == close && d' == 0 then Some(1) else Shift(1, CloseAt(tail, Code, d', open, close))
  {
    var t := [c] + tail;
    assert t[1..] == tail && Width(t, Code) == 1 && Next(t, Code) == Code;
  }

  lemma ClosePassed(item: Item, tail: string, d: int, open: char, close: char)
    requires ItemOk(item) && Follows(item, tail) && Brackets(open, close) && !item.Ordinary?
    ensures CloseAt(Text(item) + tail, Code, d, open, close) == Shift(|Text(item)|, CloseAt(tail, Code, d, open, close))
  {
    PassItem(item, tail);
    assert SameDepth(Text(item) + tail, Code, tail, ModeAfter(item, tail), open, close);
    if tail == [] {
      assert CloseAt(tail, ModeAfter(item, tail), d, open, close) == None;
    }
  }

  /** What one item contributes to the search for the bracket. */
  lemma CloseStep(item: Item, tail: string, d: int, open: char, close: char)
    requires ItemOk(item) && Follows(item, tail) && Brackets(open, close)
    ensures var d' := d + ItemDelta(item, open, close);
      CloseAt(Text(item) + tail, Code, d, open, close) ==
        if item == Ordinary(close) && d' == 0 then Some(1)
        else Shift(|Text(item)|, CloseAt(tail, Code, d', open, close))
  {
    if item.Ordinary? {
      CloseOrdinary(item.c, tail, d, open, close);
    } else {
      ClosePassed(item, tail, d, open, close);
    }
  }

  lemma TextCat(items: seq<Item>, rest: string)
    requires items != []
    ensures TextOf(items) + rest == Text(items[0]) + (TextOf(items[1..]) + rest)
    ensures |items| > 1 ==> TextOf(items[1..]) != []
  {
    Regroup(Text(items[0]), TextOf(items[1..]), rest);
    if |items| > 1 {
      TextNotEmpty(items[1]);
    }
  }

  lemma FollowsCat(item: Item, text: string, rest: string)
    requires Follows(item, text) && (text != [] || (item.Ordinary? && Plain(item.c)))
    ensures Follows(item, text + rest)
  {}

  lemma CloseFirst(t: string, item: Item, tail: string, d: int, open: char, close: char, n: nat)
    requires t == Text(item) + tail && ItemOk(item) && Follows(item, tail) && Brackets(open, close)
    requires var d' := d + ItemDelta(item, open, close);
      if item == Ordinary(close) && d' == 0 then n == 0 else CloseAt(tail, Code, d', open, close) == Some(n)
    ensures CloseAt(t, Code, d, open, close) == Some(|Text(item)| + n)
  {
    CloseStep(item, tail, d, open, close);
  }

  lemma CloseHead(items: seq<Item>, rest: string, d: int, open: char, close: char)
    requires ItemsOk(items) && Brackets(open, close) && ItemClose(items, d, open, close) == Some(|items|)
    ensures items != [] && ItemOk(items[0]) && ItemsOk(items[1..]) && Follows(items[0], TextOf(items[1..]) + rest)
    ensures var d' := d + ItemDelta(items[0], open, close);
      if items[0] == Ordinary(close) && d' == 0 then TextOf(items[1..]) == []
      else ItemClose(items[1..], d', open, close) == Some(|items[1..]|)
  {
    TextCat(items, rest);
    FollowsCat(items[0], TextOf(items[1..]), rest);
  }

  lemma CloseCons(items: seq<Item>, rest: string, d: int, open: char, close: char, n: nat)
    requires items != [] && ItemOk(items[0]) && Follows(items[0], TextOf(items[1..]) + rest) && Brackets(open, close)
    requires var d' := d + ItemDelta(items[0], open, close);
      if items[0] == Ordinary(close) && d' == 0 then n == 0
      else CloseAt(TextOf(items[1..]) + rest, Code, d', open, close) == Some(n)
    ensures CloseAt(TextOf(items) + rest, Code, d, open, close) == Some(|TextOf(items)| - |TextOf(items[1..])| + n)
  {
    TextCat(items, rest);
    CloseFirst(TextOf(items) + rest, items[0], TextOf(items[1..]) + rest, d, open, close, n);
  }

  /** Whatever follows the items, the scan ends with them if their last one closes. */
  lemma {:induction false} CloseItems(items: seq<Item>, rest: string, d: int, open: char, close: char)
    requires ItemsOk(items) && Brackets(open, close) && ItemClose(items, d, open, close) == Some(|items|)
    ensures CloseAt(TextOf(items) + rest, Code, d, open, close) == Some(|TextOf(items)|)
    decreases items
  {
    CloseHead(items, rest, d, open, close);
    var more, d' := items[1..], d + ItemDelta(items[0], open, close);
    if items[0] == Ordinary(close) && d' == 0 {
      CloseCons(items, rest, d, open, close, 0);
    } else {
      CloseItems(more, rest, d', open, close);
      CloseCons(items, rest, d, open, close, |TextOf(more)|);
    }
  }

  /** Finding the end of the text at an item is finding it there or behind it. */
  lemma FoundStep(item: Item, tail: string, d: int, open: char, close: char)
    requires ItemOk(item) && Follows(item, tail) && Brackets(open, close)
    requires CloseAt(Text(item) + tail, Code, d, open, close) == Some(|Text(item) + tail|)
    ensures var d' := d + ItemDelta(item, open, close);
      if item == Ordinary(close) && d' == 0 then tail == []
      else tail != [] && CloseAt(tail, Code, d', open, close) == Some(|tail|)
  {
    CloseStep(item, tail, d, open, close);
  }

  /** In the text of an item list nothing else can be found. */
  lemma {:induction false} FoundInItems(items: seq<Item>, d: int, open: char, close: char)
    requires ItemsOk(items) && items != [] && Brackets(open, close)
    requires CloseAt(TextOf(items), Code, d, open, close) == Some(|TextOf(items)|)
    ensures ItemClose(items, d, open, close) == Some(|items|)
  {
    FoundStep(items[0], TextOf(items[1..]), d, open, close);
    if |items| > 1 {
      TextCat(items, []);
    }
    var d' := d + ItemDelta(items[0], open, close);
    if !(items[0] == Ordinary(close) && d' == 0) {
      FoundInItems(items[1..], d', open, close);
    }
  }

  lemma BalancingUnique(text: string, open: char, close: char, r: Option<nat>, r': Option<nat>)
    requires text != [] && IsBalancing(text, 0, open, close, r) && IsBalancing(text, 0, open, close, r')
    ensures r == r'
  {
    assert r.Some? ==> Depth(text[0..r.value + 1], Code, open, close) == 0;
    assert r'.Some? ==> Depth(text[0..r'.value + 1], Code, open, close) == 0;
  }

  lemma BalancingOfSpan(t: string, k: nat, open: char, close: char)
    requires k < |t| && IsBalancing(t, 0, open, close, Some(k))
    ensures IsBalancing(t[..k + 1], 0, open, close, Some(k))
  {
    var u := t[..k + 1];
    forall j | 0 < j <= k + 1 ensures u[0..j] == t[0..j] {
    }
  }

  lemma FoundIsBalancing(t: string, open: char, close: char)
    requires t != [] && t[0] == open && Brackets(open, close)
    ensures match CloseAt(t, Code, 0, open, close)
      case None => IsBalancing(t, 0, open, close, None)
      case Some(n) => 0 < n <= |t| && IsBalancing(t, 0, open, close, Some(n - 1)) && EndMode(t[..n], Code) == Code
  {
    assert t[0..] == t;
    BalancedFrom(t, 0, open, close);
  }

  /** A span ending at the bracket found, cut off behind it, is found too. */
  lemma CloseOfSpan(t: string, n: nat, open: char, close: char)
    requires t != [] && t[0] == open && Brackets(open, close) && CloseAt(t, Code, 0, open, close) == Some(n)
    ensures 0 < n <= |t| && CloseAt(t[..n], Code, 0, open, close) == Some(n) && EndMode(t[..n], Code) == Code
  {
    FoundIsBalancing(t, open, close);
    BalancingOfSpan(t, n - 1, open, close);
    FoundIsBalancing(t[..n], open, close);
    var r := CloseAt(t[..n], Code, 0, open, close);
    BalancingUnique(t[..n], open, close, Some(n - 1), if r.Some? then Some(r.value - 1) else None);
  }

  /** t is the text of items whose last one is the first to balance. */
  ghost predicate BalancedSpan(t: string, open: char, close: char) {
    exists items :: ItemsOk(items) && TextOf(items) == t && ItemClose(items, 0, open, close) == Some(|items|)
  }

  /** From an opening bracket the scan ends at n exactly when the first n characters are a balanced span. */
  lemma CloseIffItems(t: string, n: nat, open: char, close: char)
    requires t != [] && t[0] == open && Brackets(open, close)
    ensures CloseAt(t, Code, 0, open, close) == Some(n) <==> n <= |t| && BalancedSpan(t[..n], open, close)
  {
    if CloseAt(t, Code, 0, open, close) == Some(n) {
      CloseOfSpan(t, n, open, close);
      var items := Itemize(t[..n]);
      FoundInItems(items, 0, open, close);
    }
    if n <= |t| && BalancedSpan(t[..n], open, close) {
      var items :| ItemsOk(items) && TextOf(items) == t[..n] && ItemClose(items, 0, open, close) == Some(|items|);
      CloseItems(items, t[n..], 0, open, close);
      assert t[..n] + t[n..] == t;
    }
  }

  /** What the extractors return, in lexical terms: the bracket at k exactly when the text from the opening
      one through k is a balanced span, and the error exactly when there is none. */
  lemma BalancingIsItems(text: string, opening: nat, open: char, close: char, r: Option<nat>, k: nat)
    requires opening < |text| && text[opening] == open && Brackets(open, close)
    requires IsBalancing(text, opening, open, close, r)
    ensures r == Some(k) <==> opening <= k < |text| && BalancedSpan(text[opening..k + 1], open, close)
  {
    var t := text[opening..];
    BalancingFrom(text, opening, open, close, r);
    FoundIsBalancing(t, open, close);
    var found := CloseAt(t, Code, 0, open, close);
    BalancingUnique(t, open, close, if r.Some? then Some(r.value - opening) else None,
                    if found.Some? then Some(found.value - 1) else None);
    if opening <= k {
      CloseIffItems(t, k + 1 - opening, open, close);
      assert k < |text| ==> t[..k + 1 - opening] == text[opening..k + 1];
    }
  }

  lemma BalancingFrom(text: string, opening: nat, open: char, close: char, r: Option<nat>)
    requires opening < |text| && IsBalancing(text, opening, open, close, r)
    ensures r.Some? ==> opening <= r.value
    ensures IsBalancing(text[opening..], 0, open, close, if r.Some? then Some(r.value - opening) else None)
  {
    var t := text[opening..];
    forall j | 0 < j <= |t| ensures t[0..j] == text[opening..opening + j] {
    }
  }
}
