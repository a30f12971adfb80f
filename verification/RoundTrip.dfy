/**
  The printer against the reader: parsing the text of a rendered config with the
  Lua grammar gives back exactly the pools and keyspaces it was printed from,
  whatever bytes their names and addresses hold.
 */
module RoundTrip {
  import opened Text
  import opened Lua
  import opened Render

  // ---------------------------------------------------------------- text to tokens

  /** `text` reads as `toks`, and still does in front of any other such text. */
  ghost predicate Reads(text: Str, toks: seq<Token>) {
    exists ps: seq<Piece> :: WellSpaced(ps) && Layout(ps) == text && Tokens(ps) == toks
  }

  lemma ReadsLex(text: Str, toks: seq<Token>)
    requires Reads(text, toks)
    ensures Lex(text) == Some(toks)
  {
    var ps :| WellSpaced(ps) && Layout(ps) == text && Tokens(ps) == toks;
    LexLayout(ps);
  }

  lemma ReadsConcat(a: Str, ka: seq<Token>, b: Str, kb: seq<Token>)
    requires Reads(a, ka) && Reads(b, kb)
    ensures Reads(a + b, ka + kb)
  {
    var p: seq<Piece> :| WellSpaced(p) && Layout(p) == a && Tokens(p) == ka;
    var q: seq<Piece> :| WellSpaced(q) && Layout(q) == b && Tokens(q) == kb;
    LayoutConcat(p, q);
    SpacedConcat(p, q);
  }

  lemma SpacedConcat(p: seq<Piece>, q: seq<Piece>)
    requires WellSpaced(p) && WellSpaced(q)
    ensures WellSpaced(p + q)
  {
    var r := p + q;
    forall i | 0 <= i < |r| && r[i].Tok? && r[i].token.Name?
      ensures i + 1 < |r| && !(r[i + 1].Tok? && r[i + 1].token.Name?)
    {
      if i < |p| {
        assert r[i + 1] == p[i + 1];
      } else {
        assert r[i + 1] == q[i - |p| + 1];
      }
    }
  }

  lemma ReadsNothing()
    ensures Reads([], [])
  {
    assert WellSpaced([]) && Layout([]) == [] && Tokens([]) == [];
  }

  lemma ReadsPiece(p: Piece)
    requires p.Space? ==> p.ws != [] && forall c | c in p.ws :: IsSpace(c)
    requires p.Tok? ==> !p.token.Name?
    ensures Reads(PieceText(p), if p.Tok? then [p.token] else [])
  {
    assert WellSpaced([p]);
    assert [p][1..] == [];
    assert Layout([p]) == PieceText(p);
    assert Tokens([p]) == if p.Tok? then [p.token] else [];
  }

  /** A name reads as itself once white space follows it. */
  lemma ReadsName(id: Str, ws: Str)
    requires IsName(id) && ws != [] && forall c | c in ws :: IsSpace(c)
    ensures Reads(id + ws, [Name(id)])
  {
    var ps := [Tok(Name(id)), Space(ws)];
    assert ps[1..] == [Space(ws)] && [Space(ws)][1..] == [];
    assert Layout([Space(ws)]) == ws;
    assert Tokens([Space(ws)]) == [];
    assert WellSpaced(ps) && Layout(ps) == id + ws;
  }

  lemma ReadsSpaces(ws: Str)
    requires ws != [] && forall c | c in ws :: IsSpace(c)
    ensures Reads(ws, [])
  {
    ReadsPiece(Space(ws));
  }

  /** ReadsConcat where one side holds no token. */
  lemma ReadsAfter(ws: Str, b: Str, kb: seq<Token>)
    requires Reads(ws, []) && Reads(b, kb)
    ensures Reads(ws + b, kb)
  {
    ReadsConcat(ws, [], b, kb);
    assert [] + kb == kb;
  }

  lemma ReadsBefore(a: Str, ka: seq<Token>, ws: Str)
    requires Reads(a, ka) && Reads(ws, [])
    ensures Reads(a + ws, ka)
  {
    ReadsConcat(a, ka, ws, []);
    assert ka + [] == ka;
  }

  lemma ReadsAtoms()
    ensures Reads(SPACE, []) && Reads(NEWLINE, [])
    ensures Reads(INDENT_1, []) && Reads(INDENT_2, []) && Reads(INDENT_3, [])
    ensures Reads(OPEN, [LBrace]) && Reads(CLOSE, [RBrace]) && Reads(COMMA, [Comma])
    ensures Reads(LINE_END, [Comma]) && Reads(LIST_SEPARATOR, [Comma])
  {
    ReadsSpaces(SPACE);
    ReadsSpaces(NEWLINE);
    ReadsSpaces(INDENT_1);
    ReadsSpaces(INDENT_2);
    ReadsSpaces(INDENT_3);
    ReadsPiece(Tok(LBrace));
    ReadsPiece(Tok(RBrace));
    ReadsPiece(Tok(Token.Comma));
    ReadsBefore(COMMA, [Comma], NEWLINE);
    ReadsBefore(COMMA, [Comma], SPACE);
  }

  /** The white space and punctuation the printer uses, as parameters: what they are spelled like is irrelevant here. */
  ghost predicate Marks(sp: Str, eq: Str, open: Str) {
    && sp != [] && (forall c | c in sp :: IsSpace(c))
    && Reads(sp, []) && Reads(eq, [Equals]) && Reads(open, [LBrace])
  }

  /** `lead` then `name = `. */
  lemma ReadsField(lead: Str, toks: seq<Token>, name: Str, sp: Str, eq: Str, open: Str)
    requires IsName(name) && Reads(lead, toks) && Marks(sp, eq, open)
    ensures Reads(lead + name + (sp + eq + sp), toks + [Name(name), Equals])
  {
    ReadsName(name, sp);
    ReadsConcat(lead, toks, name + sp, [Name(name)]);
    ReadsBefore(eq, [Equals], sp);
    ReadsConcat(lead + (name + sp), toks + [Name(name)], eq + sp, [Equals]);
    Regroup(lead, name, sp, eq);
    assert toks + [Name(name)] + [Equals] == toks + [Name(name), Equals];
  }

  lemma Regroup(lead: Str, name: Str, sp: Str, eq: Str)
    ensures lead + (name + sp) + (eq + sp) == lead + name + (sp + eq + sp)
  {
  }

  /** `lead` then `{` and white space. */
  lemma ReadsOpen(lead: Str, toks: seq<Token>, open: Str, ws: Str)
    requires Reads(lead, toks) && Reads(open, [LBrace]) && Reads(ws, [])
    ensures Reads(lead + open + ws, toks + [LBrace])
  {
    ReadsConcat(lead, toks, open, [LBrace]);
    ReadsBefore(lead + open, toks + [LBrace], ws);
  }

  lemma ReadsItemOpen(indent: Str, name: Str, sp: Str, eq: Str, open: Str)
    requires IsName(name) && Reads(indent, []) && Marks(sp, eq, open)
    ensures Reads(indent + open + sp + name + (sp + eq + sp), [LBrace, Name(name), Equals])
  {
    ReadsOpen(indent, [], open, sp);
    ReadsField(indent + open + sp, [] + [LBrace], name, sp, eq, open);
    assert [] + [LBrace] + [Name(name), Equals] == [LBrace, Name(name), Equals];
  }

  lemma ReadsOption(lead: Str, name: Str, sp: Str, eq: Str, open: Str)
    requires IsName(name) && Reads(lead, [Comma]) && Marks(sp, eq, open)
    ensures Reads(lead + name + (sp + eq + sp), [Comma, Name(name), Equals])
  {
    ReadsField(lead, [Comma], name, sp, eq, open);
    assert [Comma] + [Name(name), Equals] == [Comma, Name(name), Equals];
  }

  lemma ReadsListOpen(lead: Str, toks: seq<Token>, name: Str, sp: Str, eq: Str, open: Str, ws: Str)
    requires IsName(name) && Reads(lead, toks) && Reads(ws, []) && Marks(sp, eq, open)
    ensures Reads(lead + name + (sp + eq + sp) + open + ws, toks + [Name(name), Equals, LBrace])
  {
    ReadsField(lead, toks, name, sp, eq, open);
    ReadsOpen(lead + name + (sp + eq + sp), toks + [Name(name), Equals], open, ws);
    assert toks + [Name(name), Equals] + [LBrace] == toks + [Name(name), Equals, LBrace];
  }

  lemma ReadsListAfter(lead: Str, name: Str, sp: Str, eq: Str, open: Str)
    requires IsName(name) && Reads(lead, [Comma]) && Marks(sp, eq, open)
    ensures Reads(lead + name + (sp + eq + sp) + open + sp, [Comma, Name(name), Equals, LBrace])
  {
    ReadsListOpen(lead, [Comma], name, sp, eq, open, sp);
    assert [Comma] + [Name(name), Equals, LBrace] == [Comma, Name(name), Equals, LBrace];
  }

  lemma PrinterMarks()
    ensures Marks(SPACE, EQUALS, OPEN)
  {
    ReadsSpaces(SPACE);
    ReadsPiece(Tok(Equals));
    ReadsPiece(Tok(LBrace));
  }

  lemma FieldNames()
    ensures IsName(NAME) && IsName(ADDRS) && IsName(HASH) && IsName(DIST) && IsName(PREFIX)
    ensures IsName(READ) && IsName(WRITE) && IsName(WRITE_POLICY) && IsName(MERGE)
    ensures IsName(POOLS) && IsName(KEYSPACES) && IsName(RETURN)
  {
  }

  lemma ReadsPoolOpen()
    ensures Reads(POOL_OPEN, [LBrace, Name(NAME), Equals])
  {
    ReadsAtoms();
    PrinterMarks();
    FieldNames();
    ReadsItemOpen(INDENT_2, NAME, SPACE, EQUALS, OPEN);
  }

  lemma ReadsPoolAddrs()
    ensures Reads(POOL_ADDRS, [Comma, Name(ADDRS), Equals, LBrace])
  {
    ReadsAtoms();
    PrinterMarks();
    FieldNames();
    ReadsListAfter(LIST_SEPARATOR, ADDRS, SPACE, EQUALS, OPEN);
  }

  lemma ReadsPoolOptions()
    ensures Reads(POOL_HASH, [Comma, Name(HASH), Equals])
    ensures Reads(POOL_DIST, [Comma, Name(DIST), Equals])
  {
    ReadsAtoms();
    PrinterMarks();
    FieldNames();
    ReadsOption(LIST_SEPARATOR, HASH, SPACE, EQUALS, OPEN);
    ReadsOption(LIST_SEPARATOR, DIST, SPACE, EQUALS, OPEN);
  }

  lemma ReadsKeyspaceOpen()
    ensures Reads(KEYSPACE_OPEN, [LBrace, Name(PREFIX), Equals])
  {
    ReadsAtoms();
    PrinterMarks();
    FieldNames();
    ReadsItemOpen(INDENT_2, PREFIX, SPACE, EQUALS, OPEN);
  }

  lemma ReadsKeyspaceLists()
    ensures Reads(KEYSPACE_READ, [Name(READ), Equals, LBrace])
    ensures Reads(KEYSPACE_WRITE, [Name(WRITE), Equals, LBrace])
  {
    ReadsAtoms();
    PrinterMarks();
    FieldNames();
    ReadsListOpen(INDENT_3, [], READ, SPACE, EQUALS, OPEN, SPACE);
    assert [] + [Name(READ), Equals, LBrace] == [Name(READ), Equals, LBrace];
    ReadsListOpen(INDENT_3, [], WRITE, SPACE, EQUALS, OPEN, SPACE);
    assert [] + [Name(WRITE), Equals, LBrace] == [Name(WRITE), Equals, LBrace];
  }

  lemma ReadsKeyspaceOptions()
    ensures Reads(KEYSPACE_POLICY, [Comma, Name(WRITE_POLICY), Equals])
    ensures Reads(KEYSPACE_MERGE, [Comma, Name(MERGE), Equals])
  {
    ReadsAtoms();
    PrinterMarks();
    FieldNames();
    ReadsBefore(LINE_END, [Comma], INDENT_3);
    ReadsOption(LINE_END + INDENT_3, WRITE_POLICY, SPACE, EQUALS, OPEN);
    ReadsOption(LINE_END + INDENT_3, MERGE, SPACE, EQUALS, OPEN);
  }

  lemma ReadsSections()
    ensures Reads(CONFIG_OPEN, [Name(RETURN), LBrace])
    ensures Reads(POOLS_OPEN, [Name(POOLS), Equals, LBrace])
    ensures Reads(KEYSPACES_OPEN, [Name(KEYSPACES), Equals, LBrace])
  {
    ReadsAtoms();
    PrinterMarks();
    FieldNames();
    ReadsName(RETURN, SPACE);
    ReadsOpen(RETURN + SPACE, [Name(RETURN)], OPEN, NEWLINE);
    assert [Name(RETURN)] + [LBrace] == [Name(RETURN), LBrace];
    ReadsListOpen(INDENT_1, [], POOLS, SPACE, EQUALS, OPEN, NEWLINE);
    assert [] + [Name(POOLS), Equals, LBrace] == [Name(POOLS), Equals, LBrace];
    ReadsListOpen(INDENT_1, [], KEYSPACES, SPACE, EQUALS, OPEN, NEWLINE);
    assert [] + [Name(KEYSPACES), Equals, LBrace] == [Name(KEYSPACES), Equals, LBrace];
  }

  lemma ReadsClosers()
    ensures Reads(LIST_CLOSE, [RBrace])
    ensures Reads(ITEM_CLOSE, [RBrace, Comma])
    ensures Reads(SECTION_CLOSE, [RBrace, Comma])
    ensures Reads(CONFIG_CLOSE, [RBrace])
  {
    ReadsAtoms();
    ReadsAfter(SPACE, CLOSE, [RBrace]);
    ReadsConcat(SPACE + CLOSE, [RBrace], LINE_END, [Comma]);
    ReadsAfter(INDENT_1, CLOSE, [RBrace]);
    ReadsConcat(INDENT_1 + CLOSE, [RBrace], LINE_END, [Comma]);
    assert [RBrace] + [Comma] == [RBrace, Comma];
    ReadsBefore(CLOSE, [RBrace], NEWLINE);
  }

  // ---------------------------------------------------------------- the printed tokens

  function ListTokens(items: seq<Str>): seq<Token> {
    if items == [] then []
    else if |items| == 1 then [Literal(items[0])]
    else ListTokens(items[..|items| - 1]) + [Comma] + [Literal(items[|items| - 1])]
  }

  function OptionTokens(name: Str, value: Str): seq<Token> {
    if value != [] then [Comma, Name(name), Equals] + [Literal(value)] else []
  }

  function MergeTokens(merge: Option<MergeSpec>): seq<Token> {
    if merge.Some? then [Comma, Name(MERGE), Equals] + [Literal(merge.value.name)] else []
  }

  function PoolTokens(p: Pool): seq<Token> {
    [LBrace, Name(NAME), Equals] + [Literal(p.name)] + [Comma, Name(ADDRS), Equals, LBrace]
    + ListTokens(p.addrs) + [RBrace] + OptionTokens(HASH, p.hash) + OptionTokens(DIST, p.dist) + [RBrace, Comma]
  }

  function KeyspaceTokens(k: Keyspace): seq<Token> {
    [LBrace, Name(PREFIX), Equals] + [Literal(k.prefix)] + [Comma]
    + [Name(READ), Equals, LBrace] + ListTokens(k.read) + [RBrace, Comma]
    + [Name(WRITE), Equals, LBrace] + ListTokens(k.write) + [RBrace]
    + OptionTokens(WRITE_POLICY, k.writePolicy) + MergeTokens(k.merge) + [RBrace, Comma]
  }

  function PoolsTokens(ps: seq<Pool>): seq<Token> {
    if ps == [] then [] else PoolsTokens(ps[..|ps| - 1]) + PoolTokens(ps[|ps| - 1])
  }

  function KeyspacesTokens(ks: seq<Keyspace>): seq<Token> {
    if ks == [] then [] else KeyspacesTokens(ks[..|ks| - 1]) + KeyspaceTokens(ks[|ks| - 1])
  }

  function ConfigTokens(ps: seq<Pool>, ks: seq<Keyspace>): seq<Token> {
    [Name(RETURN), LBrace] + [Name(POOLS), Equals, LBrace] + PoolsTokens(ps) + [RBrace, Comma]
    + [Name(KEYSPACES), Equals, LBrace] + KeyspacesTokens(ks) + [RBrace, Comma] + [RBrace]
  }

  lemma ReadsQuote(s: Str)
    ensures Reads(Quote(s), [Literal(s)])
  {
    ReadsPiece(Tok(Literal(s)));
  }

  lemma {:induction false} ReadsList(items: seq<Str>)
    ensures Reads(QuoteList(items), ListTokens(items))
  {
    if items == [] {
      ReadsNothing();
    } else {
      var last := items[|items| - 1];
      ReadsQuote(last);
      if |items| > 1 {
        var init := items[..|items| - 1];
        ReadsList(init);
        ReadsAtoms();
        ReadsConcat(QuoteList(init), ListTokens(init), LIST_SEPARATOR, [Comma]);
        ReadsConcat(QuoteList(init) + LIST_SEPARATOR, ListTokens(init) + [Comma], Quote(last), [Literal(last)]);
      }
    }
  }

  lemma ReadsOptional(open: Str, name: Str, value: Str)
    requires Reads(open, [Comma, Name(name), Equals])
    ensures Reads(Field(open, value), OptionTokens(name, value))
  {
    ReadsNothing();
    if value != [] {
      ReadsQuote(value);
      ReadsConcat(open, [Comma, Name(name), Equals], Quote(value), [Literal(value)]);
    }
  }

  lemma ReadsConcat4(a: Str, ka: seq<Token>, b: Str, kb: seq<Token>, c: Str, kc: seq<Token>, d: Str, kd: seq<Token>)
    requires Reads(a, ka) && Reads(b, kb) && Reads(c, kc) && Reads(d, kd)
    ensures Reads(a + b + c + d, ka + kb + kc + kd)
  {
    ReadsConcat(a, ka, b, kb);
    ReadsConcat(a + b, ka + kb, c, kc);
    ReadsConcat(a + b + c, ka + kb + kc, d, kd);
  }

  lemma ReadsPool(p: Pool)
    ensures Reads(PoolText(p), PoolTokens(p))
  {
    ReadsPoolOpen();
    ReadsPoolAddrs();
    ReadsPoolOptions();
    ReadsClosers();
    ReadsQuote(p.name);
    ReadsList(p.addrs);
    ReadsOptional(POOL_HASH, HASH, p.hash);
    ReadsOptional(POOL_DIST, DIST, p.dist);
    var head, k := POOL_OPEN + Quote(p.name) + POOL_ADDRS + QuoteList(p.addrs),
      [LBrace, Name(NAME), Equals] + [Literal(p.name)] + [Comma, Name(ADDRS), Equals, LBrace] + ListTokens(p.addrs);
    ReadsConcat4(POOL_OPEN, [LBrace, Name(NAME), Equals], Quote(p.name), [Literal(p.name)],
                 POOL_ADDRS, [Comma, Name(ADDRS), Equals, LBrace], QuoteList(p.addrs), ListTokens(p.addrs));
    ReadsConcat4(head, k, LIST_CLOSE, [RBrace], Field(POOL_HASH, p.hash), OptionTokens(HASH, p.hash),
                 Field(POOL_DIST, p.dist), OptionTokens(DIST, p.dist));
    ReadsConcat(head + LIST_CLOSE + Field(POOL_HASH, p.hash) + Field(POOL_DIST, p.dist),
                k + [RBrace] + OptionTokens(HASH, p.hash) + OptionTokens(DIST, p.dist), ITEM_CLOSE, [RBrace, Comma]);
  }

  lemma ReadsKeyspace(k: Keyspace)
    ensures Reads(KeyspaceText(k), KeyspaceTokens(k))
  {
    ReadsKeyspaceHead(k);
    ReadsKeyspaceTail(k);
    ReadsClosers();
    var tail, kt := Field(KEYSPACE_POLICY, k.writePolicy), OptionTokens(WRITE_POLICY, k.writePolicy);
    ReadsConcat4(KeyspaceHead(k), KeyspaceHeadTokens(k), tail, kt,
                 MergeText(k.merge), MergeTokens(k.merge), ITEM_CLOSE, [RBrace, Comma]);
  }

  function KeyspaceHead(k: Keyspace): Str {
    KEYSPACE_OPEN + Quote(k.prefix) + LINE_END
    + KEYSPACE_READ + QuoteList(k.read) + ITEM_CLOSE
    + KEYSPACE_WRITE + QuoteList(k.write) + LIST_CLOSE
  }

  function KeyspaceHeadTokens(k: Keyspace): seq<Token> {
    [LBrace, Name(PREFIX), Equals] + [Literal(k.prefix)] + [Comma]
    + [Name(READ), Equals, LBrace] + ListTokens(k.read) + [RBrace, Comma]
    + [Name(WRITE), Equals, LBrace] + ListTokens(k.write) + [RBrace]
  }

  lemma ReadsKeyspaceHead(k: Keyspace)
    ensures Reads(KeyspaceHead(k), KeyspaceHeadTokens(k))
  {
    ReadsKeyspaceOpen();
    ReadsKeyspaceLists();
    ReadsClosers();
    ReadsAtoms();
    ReadsQuote(k.prefix);
    ReadsList(k.read);
    ReadsList(k.write);
    var a, ka := KEYSPACE_OPEN + Quote(k.prefix) + LINE_END + KEYSPACE_READ,
      [LBrace, Name(PREFIX), Equals] + [Literal(k.prefix)] + [Comma] + [Name(READ), Equals, LBrace];
    ReadsConcat4(KEYSPACE_OPEN, [LBrace, Name(PREFIX), Equals], Quote(k.prefix), [Literal(k.prefix)],
                 LINE_END, [Comma], KEYSPACE_READ, [Name(READ), Equals, LBrace]);
    ReadsConcat4(a, ka, QuoteList(k.read), ListTokens(k.read), ITEM_CLOSE, [RBrace, Comma],
                 KEYSPACE_WRITE, [Name(WRITE), Equals, LBrace]);
    var b, kb := a + QuoteList(k.read) + ITEM_CLOSE + KEYSPACE_WRITE,
      ka + ListTokens(k.read) + [RBrace, Comma] + [Name(WRITE), Equals, LBrace];
    ReadsConcat(b, kb, QuoteList(k.write), ListTokens(k.write));
    ReadsConcat(b + QuoteList(k.write), kb + ListTokens(k.write), LIST_CLOSE, [RBrace]);
  }

  lemma ReadsKeyspaceTail(k: Keyspace)
    ensures Reads(Field(KEYSPACE_POLICY, k.writePolicy), OptionTokens(WRITE_POLICY, k.writePolicy))
    ensures Reads(MergeText(k.merge), MergeTokens(k.merge))
  {
    ReadsKeyspaceOptions();
    ReadsOptional(KEYSPACE_POLICY, WRITE_POLICY, k.writePolicy);
    ReadsNothing();
    if k.merge.Some? {
      ReadsQuote(k.merge.value.name);
      ReadsConcat(KEYSPACE_MERGE, [Comma, Name(MERGE), Equals],
                  Quote(k.merge.value.name), [Literal(k.merge.value.name)]);
    }
  }

  lemma {:induction false} ReadsPools(ps: seq<Pool>)
    ensures Reads(PoolTexts(ps), PoolsTokens(ps))
  {
    if ps == [] {
      ReadsNothing();
    } else {
      ReadsPools(ps[..|ps| - 1]);
      ReadsPool(ps[|ps| - 1]);
      ReadsConcat(PoolTexts(ps[..|ps| - 1]), PoolsTokens(ps[..|ps| - 1]),
                  PoolText(ps[|ps| - 1]), PoolTokens(ps[|ps| - 1]));
    }
  }

  lemma {:induction false} ReadsKeyspaces(ks: seq<Keyspace>)
    ensures Reads(KeyspaceTexts(ks), KeyspacesTokens(ks))
  {
    if ks == [] {
      ReadsNothing();
    } else {
      ReadsKeyspaces(ks[..|ks| - 1]);
      ReadsKeyspace(ks[|ks| - 1]);
      ReadsConcat(KeyspaceTexts(ks[..|ks| - 1]), KeyspacesTokens(ks[..|ks| - 1]),
                  KeyspaceText(ks[|ks| - 1]), KeyspaceTokens(ks[|ks| - 1]));
    }
  }

  lemma ReadsConfig(ps: seq<Pool>, ks: seq<Keyspace>)
    ensures Reads(ConfigText(ps, ks), ConfigTokens(ps, ks))
  {
    ReadsSections();
    ReadsClosers();
    ReadsPools(ps);
    ReadsKeyspaces(ks);
    var a, ka := CONFIG_OPEN + POOLS_OPEN + PoolTexts(ps) + SECTION_CLOSE,
      [Name(RETURN), LBrace] + [Name(POOLS), Equals, LBrace] + PoolsTokens(ps) + [RBrace, Comma];
    ReadsConcat4(CONFIG_OPEN, [Name(RETURN), LBrace], POOLS_OPEN, [Name(POOLS), Equals, LBrace],
                 PoolTexts(ps), PoolsTokens(ps), SECTION_CLOSE, [RBrace, Comma]);
    ReadsConcat4(a, ka, KEYSPACES_OPEN, [Name(KEYSPACES), Equals, LBrace],
                 KeyspaceTexts(ks), KeyspacesTokens(ks), SECTION_CLOSE, [RBrace, Comma]);
    ReadsConcat(a + KEYSPACES_OPEN + KeyspaceTexts(ks) + SECTION_CLOSE,
                ka + [Name(KEYSPACES), Equals, LBrace] + KeyspacesTokens(ks) + [RBrace, Comma], CONFIG_CLOSE, [RBrace]);
  }

  // ---------------------------------------------------------------- tokens to values

  function Strings(items: seq<Str>): (r: seq<Value>)
    ensures |r| == |items| && forall i | 0 <= i < |items| :: r[i] == String(items[i])
  {
    seq(|items|, i requires 0 <= i < |items| => String(items[i]))
  }

  function WithOption(named: map<Str, Value>, name: Str, value: Str): map<Str, Value> {
    if value != [] then named[name := String(value)] else named
  }

  /** The Lua table a pool is printed as. */
  function PoolValue(p: Pool): Value {
    var base := map[NAME := String(p.name)][ADDRS := Table(Strings(p.addrs), map[])];
    Table([], WithOption(WithOption(base, HASH, p.hash), DIST, p.dist))
  }

  /** The Lua table a keyspace is printed as. */
  function KeyspaceValue(k: Keyspace): Value {
    var base := map[PREFIX := String(k.prefix)]
      [READ := Table(Strings(k.read), map[])][WRITE := Table(Strings(k.write), map[])];
    var policy := WithOption(base, WRITE_POLICY, k.writePolicy);
    Table([], if k.merge.Some? then policy[MERGE := String(k.merge.value.name)] else policy)
  }

  function PoolValues(ps: seq<Pool>): (r: seq<Value>)
    ensures |r| == |ps| && forall i | 0 <= i < |ps| :: r[i] == PoolValue(ps[i])
  {
    seq(|ps|, i requires 0 <= i < |ps| => PoolValue(ps[i]))
  }

  function KeyspaceValues(ks: seq<Keyspace>): (r: seq<Value>)
    ensures |r| == |ks| && forall i | 0 <= i < |ks| :: r[i] == KeyspaceValue(ks[i])
  {
    seq(|ks|, i requires 0 <= i < |ks| => KeyspaceValue(ks[i]))
  }

  function ConfigValue(ps: seq<Pool>, ks: seq<Keyspace>): Value {
    Table([], map[POOLS := Table(PoolValues(ps), map[])][KEYSPACES := Table(KeyspaceValues(ks), map[])])
  }

  lemma FieldNamesNotReserved()
    ensures NAME !in RESERVED && ADDRS !in RESERVED && HASH !in RESERVED && DIST !in RESERVED
    ensures PREFIX !in RESERVED && READ !in RESERVED && WRITE !in RESERVED
    ensures WRITE_POLICY !in RESERVED && MERGE !in RESERVED
    ensures POOLS !in RESERVED && KEYSPACES !in RESERVED
  {
  }

  /** `name = exp` at the head of a field list, where `exp` parses to `v` and leaves `rest`. */
  lemma ParseNamed(id: Str, exp: seq<Token>, v: Value, rest: seq<Token>, list: seq<Value>, named: map<Str, Value>)
    requires id !in RESERVED && ParseValue(exp + rest) == Some((v, rest))
    ensures ParseFields([Name(id), Equals] + exp + rest, list, named) == ParseSeparator(rest, list, named[id := v])
  {
    var ts := [Name(id), Equals] + exp + rest;
    assert ts[2..] == exp + rest;
  }

  lemma ParsePositional(exp: seq<Token>, v: Value, rest: seq<Token>, list: seq<Value>, named: map<Str, Value>)
    requires exp != [] && (exp[0].Literal? || exp[0].LBrace?) && ParseValue(exp + rest) == Some((v, rest))
    ensures ParseFields(exp + rest, list, named) == ParseSeparator(rest, list + [v], named)
  {
    assert (exp + rest)[0] == exp[0];
  }

  lemma ParseLiteral(s: Str, rest: seq<Token>)
    ensures ParseValue([Literal(s)] + rest) == Some((String(s), rest))
  {
    assert ([Literal(s)] + rest)[1..] == rest;
  }

  lemma ParseComma(rest: seq<Token>, list: seq<Value>, named: map<Str, Value>)
    ensures ParseSeparator([Comma] + rest, list, named) == ParseFields(rest, list, named)
  {
    assert ([Comma] + rest)[1..] == rest;
  }

  lemma ParseClose(rest: seq<Token>, list: seq<Value>, named: map<Str, Value>)
    ensures ParseSeparator([RBrace] + rest, list, named) == Some((Table(list, named), rest))
    ensures ParseFields([RBrace] + rest, list, named) == Some((Table(list, named), rest))
  {
    assert ([RBrace] + rest)[1..] == rest;
  }

  /** The items of a list, each followed by a comma except the last. */
  lemma ParseNextString(s: Str, rest: seq<Token>, list: seq<Value>)
    ensures ParseSeparator([Comma] + ([Literal(s)] + rest), list, map[]) ==
      ParseSeparator(rest, list + [String(s)], map[])
  {
    ParseLiteral(s, rest);
    ParseComma([Literal(s)] + rest, list, map[]);
    ParsePositional([Literal(s)], String(s), rest, list, map[]);
  }

  lemma {:induction false} ParseList(items: seq<Str>, rest: seq<Token>, list: seq<Value>)
    requires items != []
    ensures ParseFields(ListTokens(items) + rest, list, map[]) == ParseSeparator(rest, list + Strings(items), map[])
    decreases |items|
  {
    var last := items[|items| - 1];
    if |items| == 1 {
      ParseLiteral(last, rest);
      ParsePositional([Literal(last)], String(last), rest, list, map[]);
      assert Strings(items) == [String(last)];
    } else {
      var init := items[..|items| - 1];
      var after := [Comma] + ([Literal(last)] + rest);
      assert ListTokens(items) + rest == ListTokens(init) + after;
      ParseList(init, after, list);
      ParseNextString(last, rest, list + Strings(init));
      assert list + Strings(init) + [String(last)] == list + Strings(items);
    }
  }

  lemma ParseListTable(items: seq<Str>, rest: seq<Token>)
    ensures ParseValue([LBrace] + ListTokens(items) + [RBrace] + rest) == Some((Table(Strings(items), map[]), rest))
  {
    var ts := [LBrace] + ListTokens(items) + [RBrace] + rest;
    assert ts[1..] == ListTokens(items) + ([RBrace] + rest);
    ParseClose(rest, Strings(items), map[]);
    if items == [] {
      assert Strings(items) == [];
      assert ts[1..] == [RBrace] + rest;
    } else {
      ParseList(items, [RBrace] + rest, []);
      assert [] + Strings(items) == Strings(items);
    }
  }

  /** `, name = "value"` after a field. */
  lemma ParseOption(name: Str, value: Str, rest: seq<Token>, list: seq<Value>, named: map<Str, Value>)
    requires name !in RESERVED
    ensures ParseSeparator([Comma, Name(name), Equals] + [Literal(value)] + rest, list, named)
         == ParseSeparator(rest, list, named[name := String(value)])
  {
    var field := [Name(name), Equals] + [Literal(value)] + rest;
    assert [Comma, Name(name), Equals] + [Literal(value)] + rest == [Comma] + field;
    ParseComma(field, list, named);
    ParseLiteral(value, rest);
    ParseNamed(name, [Literal(value)], String(value), rest, list, named);
  }

  lemma ParseMaybeOption(name: Str, value: Str, rest: seq<Token>, named: map<Str, Value>)
    requires name !in RESERVED
    ensures ParseSeparator(OptionTokens(name, value) + rest, [], named)
         == ParseSeparator(rest, [], WithOption(named, name, value))
  {
    if value == [] {
      assert OptionTokens(name, value) + rest == rest;
    } else {
      ParseOption(name, value, rest, [], named);
    }
  }

  /** A list field `name = { ... }`. */
  lemma ParseListField(name: Str, items: seq<Str>, rest: seq<Token>, named: map<Str, Value>)
    requires name !in RESERVED
    ensures ParseFields([Name(name), Equals] + ([LBrace] + ListTokens(items) + [RBrace]) + rest, [], named)
         == ParseSeparator(rest, [], named[name := Table(Strings(items), map[])])
  {
    var exp := [LBrace] + ListTokens(items) + [RBrace];
    ParseListTable(items, rest);
    ParseNamed(name, exp, Table(Strings(items), map[]), rest, [], named);
  }

  /** A printed pool parses to its table and leaves its trailing comma. */
  lemma ParsePool(p: Pool, rest: seq<Token>)
    ensures ParseValue(PoolTokens(p) + rest) == Some((PoolValue(p), [Comma] + rest))
  {
    FieldNamesNotReserved();
    var end := [RBrace] + ([Comma] + rest);
    var dist := OptionTokens(DIST, p.dist) + end;
    var hash := OptionTokens(HASH, p.hash) + dist;
    var list := [LBrace] + ListTokens(p.addrs) + [RBrace];
    var addrs := [Name(ADDRS), Equals] + list + hash;
    var named := map[NAME := String(p.name)];
    var base := named[ADDRS := Table(Strings(p.addrs), map[])];
    var ts := PoolTokens(p) + rest;
    PoolTokensSplit(p, rest);
    ParseLiteral(p.name, [Comma] + addrs);
    ParseNamed(NAME, [Literal(p.name)], String(p.name), [Comma] + addrs, [], map[]);
    ParseComma(addrs, [], named);
    ParseListField(ADDRS, p.addrs, hash, named);
    ParseMaybeOption(HASH, p.hash, dist, base);
    ParseMaybeOption(DIST, p.dist, end, WithOption(base, HASH, p.hash));
    ParseClose([Comma] + rest, [], WithOption(WithOption(base, HASH, p.hash), DIST, p.dist));
  }

  // Re-bracketing of concatenations, kept away from what the parts are.

  lemma Assoc4<T>(a: seq<T>, b: seq<T>, c: seq<T>, d: seq<T>, rest: seq<T>)
    ensures a + b + c + d + rest == a + (b + (c + (d + rest)))
  {
    assert a + b + c + d + rest == a + b + c + (d + rest);
    assert a + b + c + (d + rest) == a + b + (c + (d + rest));
  }

  lemma Assoc8<T>(a: seq<T>, b: seq<T>, c: seq<T>, d: seq<T>, e: seq<T>, f: seq<T>, g: seq<T>, h: seq<T>, rest: seq<T>)
    ensures a + b + c + d + e + f + g + h + rest == a + (b + (c + (d + (e + (f + (g + (h + rest)))))))
  {
    Assoc4(a + b + c + d, e, f, g, h + rest);
    assert a + b + c + d + e + f + g + h + rest == a + b + c + d + e + f + g + (h + rest);
    Assoc4(a, b, c, d, e + (f + (g + (h + rest))));
  }

  /** `{ first = exp` at the front, with the rest of the item behind it. */
  lemma ItemFront(id: Str, exp: seq<Token>, rest: seq<Token>)
    ensures ([LBrace, Name(id), Equals] + (exp + rest))[1..] == [Name(id), Equals] + exp + rest
  {
  }

  lemma ListFieldFront(id: Str, items: seq<Token>, rest: seq<Token>)
    ensures [Name(id), Equals, LBrace] + (items + ([RBrace] + rest)) ==
      [Name(id), Equals] + ([LBrace] + items + [RBrace]) + rest
  {
  }

  lemma CloseComma(rest: seq<Token>)
    ensures [RBrace, Comma] + rest == [RBrace] + ([Comma] + rest)
  {
  }

  lemma PoolTokensSplit(p: Pool, rest: seq<Token>)
    ensures
      var list := [LBrace] + ListTokens(p.addrs) + [RBrace];
      var hash := OptionTokens(HASH, p.hash) + (OptionTokens(DIST, p.dist) + ([RBrace] + ([Comma] + rest)));
      var ts := PoolTokens(p) + rest;
      ts[0] == LBrace
      && ts[1..] == [Name(NAME), Equals] + [Literal(p.name)] + ([Comma] + ([Name(ADDRS), Equals] + list + hash))
  {
    var hash := OptionTokens(HASH, p.hash) + (OptionTokens(DIST, p.dist) + ([RBrace, Comma] + rest));
    CloseComma(rest);
    Assoc8([LBrace, Name(NAME), Equals], [Literal(p.name)], [Comma, Name(ADDRS), Equals, LBrace], ListTokens(p.addrs),
           [RBrace], OptionTokens(HASH, p.hash), OptionTokens(DIST, p.dist), [RBrace, Comma], rest);
    PoolFront(NAME, p.name, ADDRS, ListTokens(p.addrs), hash);
  }

  lemma PoolFront(first: Str, value: Str, second: Str, items: seq<Token>, rest: seq<Token>)
    ensures
      var ts := [LBrace, Name(first), Equals] +
        ([Literal(value)] + ([Comma, Name(second), Equals, LBrace] + (items + ([RBrace] + rest))));
      ts[0] == LBrace
      && ts[1..] == [Name(first), Equals] + [Literal(value)] +
        ([Comma] + ([Name(second), Equals] + ([LBrace] + items + [RBrace]) + rest))
  {
    ListFieldFront(second, items, rest);
    assert [Comma, Name(second), Equals, LBrace] + (items + ([RBrace] + rest))
        == [Comma] + ([Name(second), Equals, LBrace] + (items + ([RBrace] + rest)));
    ItemFront(first, [Literal(value)], [Comma, Name(second), Equals, LBrace] + (items + ([RBrace] + rest)));
  }

  lemma ParseKeyspace(k: Keyspace, rest: seq<Token>)
    ensures ParseValue(KeyspaceTokens(k) + rest) == Some((KeyspaceValue(k), [Comma] + rest))
  {
    FieldNamesNotReserved();
    var end := [RBrace] + ([Comma] + rest);
    var merge := MergeTokens(k.merge) + end;
    var policy := OptionTokens(WRITE_POLICY, k.writePolicy) + merge;
    var write := [Name(WRITE), Equals] + ([LBrace] + ListTokens(k.write) + [RBrace]) + policy;
    var read := [Name(READ), Equals] + ([LBrace] + ListTokens(k.read) + [RBrace]) + ([Comma] + write);
    KeyspaceTokensSplit(k, rest);
    var m0 := map[PREFIX := String(k.prefix)];
    var m1 := m0[READ := Table(Strings(k.read), map[])];
    var m2 := m1[WRITE := Table(Strings(k.write), map[])];
    ParseLiteral(k.prefix, [Comma] + read);
    ParseNamed(PREFIX, [Literal(k.prefix)], String(k.prefix), [Comma] + read, [], map[]);
    ParseComma(read, [], m0);
    ParseListField(READ, k.read, [Comma] + write, m0);
    ParseComma(write, [], m1);
    ParseListField(WRITE, k.write, policy, m1);
    ParseMaybeOption(WRITE_POLICY, k.writePolicy, merge, m2);
    ParseMerge(k.merge, end, WithOption(m2, WRITE_POLICY, k.writePolicy));
    ParseClose([Comma] + rest, [], KeyspaceValue(k).named);
  }

  lemma ParseMerge(merge: Option<MergeSpec>, rest: seq<Token>, named: map<Str, Value>)
    ensures ParseSeparator(MergeTokens(merge) + rest, [], named)
         == ParseSeparator(rest, [], if merge.Some? then named[MERGE := String(merge.value.name)] else named)
  {
    FieldNamesNotReserved();
    if merge.Some? {
      ParseOption(MERGE, merge.value.name, rest, [], named);
    } else {
      assert MergeTokens(merge) + rest == rest;
    }
  }

  lemma KeyspaceTokensSplit(k: Keyspace, rest: seq<Token>)
    ensures
      var policy := OptionTokens(WRITE_POLICY, k.writePolicy) + (MergeTokens(k.merge) + ([RBrace] + ([Comma] + rest)));
      var write := [Name(WRITE), Equals] + ([LBrace] + ListTokens(k.write) + [RBrace]) + policy;
      var read := [Name(READ), Equals] + ([LBrace] + ListTokens(k.read) + [RBrace]) + ([Comma] + write);
      var ts := KeyspaceTokens(k) + rest;
      ts[0] == LBrace
      && ts[1..] == [Name(PREFIX), Equals] + [Literal(k.prefix)] + ([Comma] + read)
  {
    var policy := OptionTokens(WRITE_POLICY, k.writePolicy) + (MergeTokens(k.merge) + ([RBrace, Comma] + rest));
    CloseComma(rest);
    var write := [Name(WRITE), Equals, LBrace] + (ListTokens(k.write) + ([RBrace] + policy));
    ListFieldFront(WRITE, ListTokens(k.write), policy);
    Assoc8([LBrace, Name(PREFIX), Equals], [Literal(k.prefix)], [Comma], [Name(READ), Equals, LBrace],
           ListTokens(k.read), [RBrace, Comma], [Name(WRITE), Equals, LBrace], ListTokens(k.write), [RBrace] + policy);
    var front := [LBrace, Name(PREFIX), Equals] + [Literal(k.prefix)] + [Comma] + [Name(READ), Equals, LBrace]
      + ListTokens(k.read) + [RBrace, Comma] + [Name(WRITE), Equals, LBrace] + ListTokens(k.write);
    Assoc4(front + [RBrace], OptionTokens(WRITE_POLICY, k.writePolicy), MergeTokens(k.merge), [RBrace, Comma], rest);
    assert front + [RBrace] + policy == front + ([RBrace] + policy);
    CloseComma(write);
    ListFieldFront(READ, ListTokens(k.read), [Comma] + write);
    ItemFront(PREFIX, [Literal(k.prefix)],
              [Comma] + ([Name(READ), Equals, LBrace] + (ListTokens(k.read) + ([RBrace, Comma] + write))));
  }

  /** One more printed item at the end of a list of items. */
  lemma ParseItem(item: seq<Token>, v: Value, rest: seq<Token>, list: seq<Value>)
    requires item != [] && item[0] == LBrace && ParseValue(item + rest) == Some((v, [Comma] + rest))
    ensures ParseFields(item + rest, list, map[]) == ParseFields(rest, list + [v], map[])
  {
    assert (item + rest)[0] == LBrace;
    ParseComma(rest, list + [v], map[]);
  }

  lemma ParseOneMore(items: seq<Token>, item: seq<Token>, v: Value, rest: seq<Token>, list: seq<Value>)
    requires ParseFields(items + (item + rest), [], map[]) == ParseFields(item + rest, list, map[])
    requires item != [] && item[0] == LBrace && ParseValue(item + rest) == Some((v, [Comma] + rest))
    ensures ParseFields(items + item + rest, [], map[]) == ParseFields(rest, list + [v], map[])
  {
    assert items + item + rest == items + (item + rest);
    ParseItem(item, v, rest, list);
  }

  lemma {:induction false} ParsePools(ps: seq<Pool>, rest: seq<Token>)
    ensures ParseFields(PoolsTokens(ps) + rest, [], map[]) == ParseFields(rest, PoolValues(ps), map[])
  {
    if ps == [] {
      assert PoolsTokens(ps) + rest == rest && PoolValues(ps) == [];
    } else {
      var init, p := ps[..|ps| - 1], ps[|ps| - 1];
      ParsePools(init, PoolTokens(p) + rest);
      ParsePool(p, rest);
      FirstToken(p);
      ParseOneMore(PoolsTokens(init), PoolTokens(p), PoolValue(p), rest, PoolValues(init));
      LastPool(ps);
    }
  }

  lemma LastPool(ps: seq<Pool>)
    requires ps != []
    ensures
      var init, p := ps[..|ps| - 1], ps[|ps| - 1];
      PoolValues(ps) == PoolValues(init) + [PoolValue(p)] && PoolsTokens(ps) == PoolsTokens(init) + PoolTokens(p)
  {
  }

  lemma FirstToken(p: Pool)
    ensures PoolTokens(p) != [] && PoolTokens(p)[0] == LBrace
  {
  }

  lemma FirstKeyspaceToken(k: Keyspace)
    ensures KeyspaceTokens(k) != [] && KeyspaceTokens(k)[0] == LBrace
  {
  }

  lemma {:induction false} ParseKeyspaces(ks: seq<Keyspace>, rest: seq<Token>)
    ensures ParseFields(KeyspacesTokens(ks) + rest, [], map[]) == ParseFields(rest, KeyspaceValues(ks), map[])
  {
    if ks == [] {
      assert KeyspacesTokens(ks) + rest == rest && KeyspaceValues(ks) == [];
    } else {
      var init, k := ks[..|ks| - 1], ks[|ks| - 1];
      ParseKeyspaces(init, KeyspaceTokens(k) + rest);
      ParseKeyspace(k, rest);
      FirstKeyspaceToken(k);
      ParseOneMore(KeyspacesTokens(init), KeyspaceTokens(k), KeyspaceValue(k), rest, KeyspaceValues(init));
      LastKeyspace(ks);
    }
  }

  lemma LastKeyspace(ks: seq<Keyspace>)
    requires ks != []
    ensures
      var init, k := ks[..|ks| - 1], ks[|ks| - 1];
      && KeyspaceValues(ks) == KeyspaceValues(init) + [KeyspaceValue(k)]
      && KeyspacesTokens(ks) == KeyspacesTokens(init) + KeyspaceTokens(k)
  {
  }

  /** A section `name = { items }, ` whose items parse to `values`. */
  lemma ParseSection(name: Str, items: seq<Token>, values: seq<Value>, rest: seq<Token>, named: map<Str, Value>)
    requires name !in RESERVED
    requires ParseFields(items + ([RBrace] + ([Comma] + rest)), [], map[]) ==
      ParseFields([RBrace] + ([Comma] + rest), values, map[])
    ensures ParseFields([Name(name), Equals, LBrace] + items + [RBrace, Comma] + rest, [], named)
         == ParseFields(rest, [], named[name := Table(values, map[])])
  {
    var after := [Comma] + rest;
    var exp := [LBrace] + items + [RBrace];
    assert (exp + after)[1..] == items + ([RBrace] + after);
    ParseClose(after, values, map[]);
    assert ParseValue(exp + after) == Some((Table(values, map[]), after));
    ParseNamed(name, exp, Table(values, map[]), after, [], named);
    ParseComma(rest, [], named[name := Table(values, map[])]);
    assert [Name(name), Equals, LBrace] + items + [RBrace, Comma] + rest == [Name(name), Equals] + exp + after;
  }

  /**
    Parsing what renderConfig prints returns exactly the pools and keyspaces it
    was given, for arbitrary byte strings in every field.
   */
  lemma ConfigRoundTrip(ps: seq<Pool>, ks: seq<Keyspace>)
    ensures ParseChunk(ConfigText(ps, ks)) == Some(ConfigValue(ps, ks))
  {
    ReadsConfig(ps, ks);
    ReadsLex(ConfigText(ps, ks), ConfigTokens(ps, ks));
    ParseConfigTokens(ps, ks);
  }

  lemma ParseConfigTokens(ps: seq<Pool>, ks: seq<Keyspace>)
    ensures ConfigTokens(ps, ks)[0] == Name(RETURN)
    ensures ParseValue(ConfigTokens(ps, ks)[1..]) == Some((ConfigValue(ps, ks), []))
  {
    FieldNamesNotReserved();
    var second := [Name(KEYSPACES), Equals, LBrace] + KeyspacesTokens(ks) + [RBrace, Comma] + [RBrace];
    var first := [Name(POOLS), Equals, LBrace] + PoolsTokens(ps) + [RBrace, Comma] + second;
    ConfigTokensSplit(ps, ks);
    assert ([LBrace] + first)[1..] == first;
    ParsePools(ps, [RBrace] + ([Comma] + second));
    ParseSection(POOLS, PoolsTokens(ps), PoolValues(ps), second, map[]);
    ParseKeyspaces(ks, [RBrace] + ([Comma] + [RBrace]));
    ParseSection(KEYSPACES, KeyspacesTokens(ks), KeyspaceValues(ks), [RBrace],
      map[POOLS := Table(PoolValues(ps), map[])]);
    ParseClose([], [], ConfigValue(ps, ks).named);
    assert [RBrace] + [] == [RBrace];
  }

  lemma ConfigTokensSplit(ps: seq<Pool>, ks: seq<Keyspace>)
    ensures
      var second := [Name(KEYSPACES), Equals, LBrace] + KeyspacesTokens(ks) + [RBrace, Comma] + [RBrace];
      var first := [Name(POOLS), Equals, LBrace] + PoolsTokens(ps) + [RBrace, Comma] + second;
      ConfigTokens(ps, ks)[0] == Name(RETURN) && ConfigTokens(ps, ks)[1..] == [LBrace] + first
  {
    Sections([Name(POOLS), Equals, LBrace], PoolsTokens(ps), [RBrace, Comma],
             [Name(KEYSPACES), Equals, LBrace], KeyspacesTokens(ks), [RBrace, Comma], [RBrace]);
  }

  lemma Sections(a: seq<Token>, b: seq<Token>, c: seq<Token>, d: seq<Token>, e: seq<Token>, f: seq<Token>,
                 g: seq<Token>)
    ensures
      var ts := [Name(RETURN), LBrace] + a + b + c + d + e + f + g;
      ts[0] == Name(RETURN) && ts[1..] == [LBrace] + (a + b + c + (d + e + f + g))
  {
    var head := [Name(RETURN), LBrace];
    assert head + a + b + c == head + (a + b + c);
    assert head + (a + b + c) + d + e + f + g == head + (a + b + c) + (d + e + f + g);
    var tail := a + b + c + (d + e + f + g);
    assert head + (a + b + c) + (d + e + f + g) == head + tail;
    assert (head + tail)[1..] == [LBrace] + tail;
  }
}
