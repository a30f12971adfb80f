/**
  The fragment of Lua 5.4 a rendered config lives in: `return` followed by a
  table constructor whose fields are string literals and nested constructors.
  Lexing follows section 3.1 of the Lua 5.4 Reference Manual (a decimal escape
  takes up to three digits, greedily), table constructors section 3.4.9.
  Anything outside the fragment is reported as `None`.
 */
module Lua {
  import opened Text

  /** Lua data. A table is its sequence part (keys 1..n) and its string-keyed part. */
  datatype Value =
    | Nil
    | Bool(b: bool)
    | Number(n: int)
    | String(s: Str)
    | Table(list: seq<Value>, named: map<Str, Value>)

  datatype Token =
    | LBrace
    | RBrace
    | Equals
    | Comma
    | Semicolon
    | Name(id: Str)
    | Literal(s: Str)

  // ---------------------------------------------------------------- lexing

  predicate IsSpace(c: Byte) {
    c == ' ' || c == '\n' || c == '\t' || c == '\r' || c as int == 11 || c as int == 12
  }

  predicate IsDigit(c: Byte) {
    '0' <= c <= '9'
  }

  predicate IsNameStart(c: Byte) {
    c == '_' || 'a' <= c <= 'z' || 'A' <= c <= 'Z'
  }

  predicate IsNameChar(c: Byte) {
    IsNameStart(c) || IsDigit(c)
  }

  function DigitValue(c: Byte): (d: nat)
    requires IsDigit(c)
    ensures d < 10
  {
    c as int - '0' as int
  }

  /** Number of decimal digits at the front of `t`, at most `max`. */
  function DigitRun(t: Str, max: nat): (n: nat)
    ensures n <= max && n <= |t|
    ensures forall i | 0 <= i < n :: IsDigit(t[i])
  {
    if max == 0 || t == [] || !IsDigit(t[0]) then 0 else 1 + DigitRun(t[1..], max - 1)
  }

  function DecimalValue(t: Str): nat
    requires forall i | 0 <= i < |t| :: IsDigit(t[i])
  {
    if t == [] then 0 else DecimalValue(t[..|t| - 1]) * 10 + DigitValue(t[|t| - 1])
  }

  /** The one-letter escapes of section 3.1. */
  function LetterEscape(c: Byte): Option<Byte> {
    match c
    case 'a' => Some(7 as char)
    case 'b' => Some(8 as char)
    case 'f' => Some(12 as char)
    case 'n' => Some('\n')
    case 'r' => Some('\r')
    case 't' => Some('\t')
    case 'v' => Some(11 as char)
    case '\\' => Some('\\')
    case '"' => Some('"')
    case '\'' => Some('\'')
    case '\n' => Some('\n')
    case _ => None
  }

  /** One element of a literal's body: the byte it denotes and how much text it takes. */
  function LiteralUnit(t: Str): (r: Option<(Byte, nat)>)
    requires t != []
    ensures r.Some? ==> 0 < r.value.1 <= |t|
  {
    if t[0] == '\n' || t[0] == '\r' then None
    else if t[0] != '\\' then Some((t[0], 1))
    else if |t| == 1 then None
    else
      var run := DigitRun(t[1..], 3);
      if run > 0 then
        var v := DecimalValue(t[1..1 + run]);
        if v < 256 then Some((v as char, 1 + run)) else None
      else match LetterEscape(t[1])
        case Some(c) => Some((c, 2))
        case None => None
  }

  /** The body of a double-quoted literal up to its closing quote, and the text after it. */
  function LexLiteral(t: Str): (r: Option<(Str, Str)>)
    ensures r.Some? ==> |r.value.1| < |t|
    decreases |t|
  {
    if t == [] then None
    else if t[0] == '"' then Some(([], t[1..]))
    else match LiteralUnit(t)
      case None => None
      case Some((c, n)) =>
        match LexLiteral(t[n..])
        case None => None
        case Some((s, rest)) => Some(([c] + s, rest))
  }

  function NameRun(t: Str): (n: nat)
    ensures n <= |t|
  {
    if t == [] || !IsNameChar(t[0]) then 0 else 1 + NameRun(t[1..])
  }

  function Prepend(tok: Token, r: Option<seq<Token>>): Option<seq<Token>> {
    match r
    case None => None
    case Some(ts) => Some([tok] + ts)
  }

  function Lex(t: Str): Option<seq<Token>>
    decreases |t|
  {
    if t == [] then Some([])
    else if IsSpace(t[0]) then Lex(t[1..])
    else if t[0] == '{' then Prepend(LBrace, Lex(t[1..]))
    else if t[0] == '}' then Prepend(RBrace, Lex(t[1..]))
    else if t[0] == '=' then Prepend(Equals, Lex(t[1..]))
    else if t[0] == ',' then Prepend(Comma, Lex(t[1..]))
    else if t[0] == ';' then Prepend(Semicolon, Lex(t[1..]))
    else if t[0] == '"' then
      (match LexLiteral(t[1..])
       case None => None
       case Some((s, rest)) => Prepend(Literal(s), Lex(rest)))
    else if IsNameStart(t[0]) then
      Prepend(Name(t[..NameRun(t)]), Lex(t[NameRun(t)..]))
    else None
  }

  // ---------------------------------------------------------------- parsing

  const RESERVED: set<Str> := {
    "and", "break", "do", "else", "elseif", "end", "false", "for", "function", "goto", "if",
    "in", "local", "nil", "not", "or", "repeat", "return", "then", "true", "until", "while"
  }

  /** exp ::= LiteralString | tableconstructor */
  function ParseValue(ts: seq<Token>): (r: Option<(Value, seq<Token>)>)
    ensures r.Some? ==> |r.value.1| < |ts|
    decreases |ts|, 0
  {
    if ts == [] then None
    else match ts[0]
      case Literal(s) => Some((String(s), ts[1..]))
      case LBrace => ParseFields(ts[1..], [], map[])
      case _ => None
  }

  /** The rest of a constructor: fields separated by `,` or `;`, an optional trailing separator, `}`. */
  function ParseFields(ts: seq<Token>, list: seq<Value>, named: map<Str, Value>): (r: Option<(Value, seq<Token>)>)
    ensures r.Some? ==> |r.value.1| < |ts|
    decreases |ts|, 1
  {
    if ts == [] then None
    else if ts[0] == RBrace then Some((Table(list, named), ts[1..]))
    else if |ts| >= 2 && ts[0].Name? && ts[1] == Equals then
      if ts[0].id in RESERVED then None
      else match ParseValue(ts[2..])
        case None => None
        case Some((v, rest)) => ParseSeparator(rest, list, named[ts[0].id := v])
    else match ParseValue(ts)
      case None => None
      case Some((v, rest)) => ParseSeparator(rest, list + [v], named)
  }

  function ParseSeparator(ts: seq<Token>, list: seq<Value>, named: map<Str, Value>): (r: Option<(Value, seq<Token>)>)
    ensures r.Some? ==> |r.value.1| < |ts|
    decreases |ts|, 0
  {
    if ts == [] then None
    else if ts[0] == Comma || ts[0] == Semicolon then ParseFields(ts[1..], list, named)
    else if ts[0] == RBrace then Some((Table(list, named), ts[1..]))
    else None
  }

  /** A chunk of the form `return exp`. */
  function ParseChunk(text: Str): Option<Value> {
    match Lex(text)
    case None => None
    case Some(ts) =>
      if ts == [] || ts[0] != Name("return") then None
      else match ParseValue(ts[1..])
        case None => None
        case Some((v, rest)) => if rest == [] then Some(v) else None
  }

  // ------------------------------------------------- lexing laid-out text

  /** Text seen as tokens with white space between them. */
  datatype Piece = Space(ws: Str) | Tok(token: Token)

  /** How a byte string is written as a literal: see `QuoteByte`. */
  function Quote(s: Str): Str {
    ['"'] + QuoteBody(s) + ['"']
  }

  function QuoteBody(s: Str): Str {
    if s == [] then [] else QuoteByte(s[0]) + QuoteBody(s[1..])
  }

  /** luaQuote's switch: `"` and `\` get a backslash, printable ASCII passes, the rest is `\ddd`. */
  function QuoteByte(c: Byte): Str {
    if c == '"' then ['\\', '"']
    else if c == '\\' then ['\\', '\\']
    else if 0x20 <= c as int < 0x7f then [c]
    else ['\\', Digit(c as int / 100), Digit(c as int / 10 % 10), Digit(c as int % 10)]
  }

  function Digit(d: nat): (c: Byte)
    requires d < 10
    ensures IsDigit(c) && DigitValue(c) == d
  {
    ('0' as int + d) as char
  }

  function PieceText(p: Piece): Str {
    match p
    case Space(ws) => ws
    case Tok(LBrace) => "{"
    case Tok(RBrace) => "}"
    case Tok(Equals) => "="
    case Tok(Comma) => ","
    case Tok(Semicolon) => ";"
    case Tok(Name(id)) => id
    case Tok(Literal(s)) => Quote(s)
  }

  function Layout(ps: seq<Piece>): Str {
    if ps == [] then [] else PieceText(ps[0]) + Layout(ps[1..])
  }

  function Tokens(ps: seq<Piece>): seq<Token> {
    if ps == [] then []
    else if ps[0].Tok? then [ps[0].token] + Tokens(ps[1..])
    else Tokens(ps[1..])
  }

  predicate IsName(id: Str) {
    id != [] && IsNameStart(id[0]) && forall i | 0 <= i < |id| :: IsNameChar(id[i])
  }

  /** Spaces are white space; a name is an identifier and is not run into another name. */
  predicate WellSpaced(ps: seq<Piece>) {
    && (forall i | 0 <= i < |ps| :: ps[i].Space? ==> ps[i].ws != [] && forall c | c in ps[i].ws :: IsSpace(c))
    && (forall i | 0 <= i < |ps| :: ps[i].Tok? && ps[i].token.Name? ==>
         && IsName(ps[i].token.id)
         && i + 1 < |ps| && !(ps[i + 1].Tok? && ps[i + 1].token.Name?))
  }

  /** Quoting is undone by the lexer whatever text follows, a digit after a decimal escape included. */
  lemma {:induction false} LexQuoted(s: Str, rest: Str)
    ensures LexLiteral(QuoteBody(s) + ['"'] + rest) == Some((s, rest))
  {
    var t := QuoteBody(s) + ['"'] + rest;
    if s == [] {
      assert t == ['"'] + rest;
    } else {
      var tail := QuoteBody(s[1..]) + ['"'] + rest;
      assert t == QuoteByte(s[0]) + tail;
      LexQuotedByte(s[0], tail);
      assert t[|QuoteByte(s[0])|..] == tail;
      LexQuoted(s[1..], rest);
      assert s == [s[0]] + s[1..];
    }
  }

  lemma LexQuotedByte(c: Byte, tail: Str)
    ensures QuoteByte(c)[0] != '"'
    ensures LiteralUnit(QuoteByte(c) + tail) == Some((c, |QuoteByte(c)|))
  {
    var q := QuoteByte(c);
    var t := q + tail;
    if |q| == 4 {
      assert t[1..] == q[1..] + tail;
      assert t[1..4] == q[1..4];
      ThreeDigits(q[1], q[2], q[3], tail);
      assert [q[1], q[2], q[3]] + tail == t[1..];
      assert q[1..4] == [q[1], q[2], q[3]];
      QuotedValue(c);
    } else if |q| == 2 {
      assert t[1] == q[1] && t[1..] == [q[1]] + tail;
    }
  }

  lemma ThreeDigits(a: Byte, b: Byte, c: Byte, tail: Str)
    requires IsDigit(a) && IsDigit(b) && IsDigit(c)
    ensures DigitRun([a, b, c] + tail, 3) == 3
    ensures DecimalValue([a, b, c]) == DigitValue(a) * 100 + DigitValue(b) * 10 + DigitValue(c)
  {
    var t := [a, b, c] + tail;
    assert t[1..] == [b, c] + tail;
    assert t[1..][1..] == [c] + tail;
    assert t[1..][1..][1..] == tail;
    assert DigitRun(t[1..][1..], 1) == 1;
    assert [a, b, c][..2] == [a, b] && [a, b][..1] == [a] && [a][..0] == [];
    assert DecimalValue([a]) == DigitValue(a);
    assert DecimalValue([a, b]) == DigitValue(a) * 10 + DigitValue(b);
  }

  lemma QuotedValue(c: Byte)
    ensures c as int / 100 * 100 + c as int / 10 % 10 * 10 + c as int % 10 == c as int
  {
  }

  lemma {:induction false} NameRunOf(id: Str, rest: Str)
    requires forall i | 0 <= i < |id| :: IsNameChar(id[i])
    requires rest == [] || !IsNameChar(rest[0])
    ensures NameRun(id + rest) == |id|
  {
    if id == [] {
      assert id + rest == rest;
    } else {
      assert (id + rest)[1..] == id[1..] + rest;
      NameRunOf(id[1..], rest);
    }
  }

  lemma {:induction false} LexSpaces(ws: Str, rest: Str)
    requires forall c | c in ws :: IsSpace(c)
    ensures Lex(ws + rest) == Lex(rest)
  {
    if ws == [] {
      assert ws + rest == rest;
    } else {
      assert (ws + rest)[1..] == ws[1..] + rest;
      LexSpaces(ws[1..], rest);
    }
  }

  /** Lexing laid-out text gives back its tokens. */
  lemma {:induction false} LexLayout(ps: seq<Piece>)
    requires WellSpaced(ps)
    ensures Lex(Layout(ps)) == Some(Tokens(ps))
  {
    if ps != [] {
      var rest := Layout(ps[1..]);
      LexLayout(ps[1..]);
      LexPiece(ps[0], rest, ps);
    }
  }

  lemma LexPiece(p: Piece, rest: Str, ps: seq<Piece>)
    requires WellSpaced(ps) && ps != [] && p == ps[0] && rest == Layout(ps[1..])
    ensures Lex(PieceText(p) + rest) == if p.Space? then Lex(rest) else Prepend(p.token, Lex(rest))
  {
    match p
    case Space(ws) => LexSpaces(ws, rest);
    case Tok(Name(id)) =>
      FirstAfterName(ps);
      LexName(id, rest);
    case Tok(Literal(s)) => LexString(s, rest);
    case Tok(t) => LexPunctuation(t, rest);
  }

  lemma LexName(id: Str, rest: Str)
    requires IsName(id) && (rest == [] || !IsNameChar(rest[0]))
    ensures Lex(id + rest) == Prepend(Name(id), Lex(rest))
  {
    var t := id + rest;
    NameRunOf(id, rest);
    assert t[..|id|] == id && t[|id|..] == rest;
    assert t[0] == id[0];
  }

  lemma LexString(s: Str, rest: Str)
    ensures Lex(Quote(s) + rest) == Prepend(Literal(s), Lex(rest))
  {
    LexQuoted(s, rest);
    QuoteOpens(QuoteBody(s), rest);
    LexOpenQuote(Quote(s) + rest, s, rest);
  }

  lemma QuoteOpens(body: Str, rest: Str)
    ensures
      var t := ['"'] + body + ['"'] + rest;
      t[0] == '"' && t[1..] == body + ['"'] + rest
  {
  }

  lemma LexOpenQuote(t: Str, s: Str, rest: Str)
    requires t != [] && t[0] == '"' && LexLiteral(t[1..]) == Some((s, rest))
    ensures Lex(t) == Prepend(Literal(s), Lex(rest))
  {
  }

  lemma LexPunctuation(tok: Token, rest: Str)
    requires !tok.Name? && !tok.Literal?
    ensures Lex(PieceText(Tok(tok)) + rest) == Prepend(tok, Lex(rest))
  {
    var t := PieceText(Tok(tok)) + rest;
    assert |PieceText(Tok(tok))| == 1 && t[1..] == rest;
  }

  lemma FirstAfterName(ps: seq<Piece>)
    requires WellSpaced(ps) && ps != [] && ps[0].Tok? && ps[0].token.Name?
    ensures var rest := Layout(ps[1..]); rest != [] && !IsNameChar(rest[0])
  {
    var q := ps[1];
    assert ps[1..][0] == q;
    if q.Space? {
      assert q.ws[0] in q.ws;
    }
  }

  lemma Bracket<T>(a: seq<T>, b: seq<T>, c: seq<T>)
    ensures a + (b + c) == a + b + c
  {
  }

  lemma LayoutFirst(p: Piece, rest: seq<Piece>)
    ensures Layout([p] + rest) == PieceText(p) + Layout(rest)
    ensures Tokens([p] + rest) == (if p.Tok? then [p.token] else []) + Tokens(rest)
  {
    assert ([p] + rest)[1..] == rest;
  }

  lemma {:induction false} LayoutConcat(a: seq<Piece>, b: seq<Piece>)
    ensures Layout(a + b) == Layout(a) + Layout(b)
    ensures Tokens(a + b) == Tokens(a) + Tokens(b)
  {
    if a == [] {
      assert a + b == b;
    } else {
      var p, rest := a[0], a[1..];
      LayoutConcat(rest, b);
      Bracket([p], rest, b);
      assert a == [p] + rest;
      LayoutFirst(p, rest + b);
      LayoutFirst(p, rest);
      Bracket(PieceText(p), Layout(rest), Layout(b));
      Bracket(if p.Tok? then [p.token] else [], Tokens(rest), Tokens(b));
    }
  }
}
