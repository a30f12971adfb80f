/**
  From a pool's response to the entry a merge sees (lua/mcgateway/entries.lua):
  its status, the meta `t` flag read out of the header line, and the value cut
  out of the raw response.
 */
module Entries {
  import opened Text
  import Lua

  datatype Status = Hit | Miss | Error

  datatype Code = Stored | Deleted | Ok | OtherCode

  /** A proxy response object: what the Lua code asks it. */
  datatype Response = Response(ok: bool, hit: bool, code: Code, line: Option<Str>, vlen: Option<nat>, raw: Option<Str>)

  const I64_LIMIT: int := 0x8000_0000_0000_0000

  /** A Lua number read from decimal digits: a 64-bit integer, or beyond that the float nearest to them. */
  datatype Number = Integer(n: int) | Float(near: int)

  /** `tonumber` of the digits of `n`. */
  function ToNumber(n: int): Number {
    if -I64_LIMIT <= n < I64_LIMIT then Integer(n) else Float(n)
  }

  datatype Entry = Entry(
    pool: Str, status: Status, res: Option<Response>, t: Option<Number>, value: Option<Str>, line: Option<Str>)

  function Classify(res: Option<Response>): Status {
    if res.None? then Error
    else if !res.value.ok then Error
    else if res.value.hit then Hit
    else Miss
  }

  /** The pool answered, with a value. */
  predicate AnswersHit(res: Option<Response>) {
    res.Some? && res.value.ok && res.value.hit
  }

  /** The pool answered, without one. */
  predicate AnswersMiss(res: Option<Response>) {
    res.Some? && res.value.ok && !res.value.hit
  }

  /** The pool said nothing, or that something went wrong. */
  predicate Fails(res: Option<Response>) {
    res.Some? ==> !res.value.ok
  }

  lemma ClassifyIs(res: Option<Response>)
    ensures Classify(res) == Hit <==> AnswersHit(res)
    ensures Classify(res) == Miss <==> AnswersMiss(res)
    ensures Classify(res) == Error <==> Fails(res)
  {
  }

  // ---------------------------------------------------------------- the `t` flag

  /** Length of the run of non-blanks at the front. */
  function WordLength(s: Str): (n: nat)
    ensures n <= |s| && (s != [] && !Lua.IsSpace(s[0]) ==> n > 0)
  {
    if s == [] || Lua.IsSpace(s[0]) then 0 else 1 + WordLength(s[1..])
  }

  /** The maximal runs of non-blanks. */
  function WordsOf(s: Str): seq<Str>
    decreases |s|
  {
    if s == [] then []
    else if Lua.IsSpace(s[0]) then WordsOf(s[1..])
    else [s[..WordLength(s)]] + WordsOf(s[WordLength(s)..])
  }

  predicate AllDigits(s: Str) {
    s != [] && forall i | 0 <= i < |s| :: Lua.IsDigit(s[i])
  }

  /** `t`, an optional minus sign and digits, and nothing else. */
  function TimeFlag(word: Str): Option<Number> {
    if |word| < 2 || word[0] != 't' then None
    else if AllDigits(word[1..]) then Some(ToNumber(Lua.DecimalValue(word[1..])))
    else if word[1] == '-' && AllDigits(word[2..]) then Some(ToNumber(0 - Lua.DecimalValue(word[2..])))
    else None
  }

  /** The word is a `t` flag of value `n`. */
  ghost predicate IsTimeFlag(word: Str, digits: Str, n: int) {
    && AllDigits(digits)
    && ((word == T_FLAG + digits && n == Lua.DecimalValue(digits))
        || (word == T_FLAG + MINUS + digits && n == 0 - Lua.DecimalValue(digits)))
  }

  /** A word counts if and only if it is such a flag, for what its digits say. */
  lemma FlagShape(word: Str, r: Number)
    ensures TimeFlag(word) == Some(r) <==>
      exists digits: Str, n: int ::
        IsTimeFlag(word, digits, n) && r == if -I64_LIMIT <= n < I64_LIMIT then Integer(n) else Float(n)
  {
    if TimeFlag(word) == Some(r) {
      if AllDigits(word[1..]) {
        assert word == T_FLAG + word[1..];
        assert IsTimeFlag(word, word[1..], Lua.DecimalValue(word[1..]));
      } else {
        assert word == T_FLAG + MINUS + word[2..];
        assert IsTimeFlag(word, word[2..], 0 - Lua.DecimalValue(word[2..]));
      }
    }
    forall digits: Str, n: int | IsTimeFlag(word, digits, n) ensures TimeFlag(word) == Some(ToNumber(n)) {
      if word == T_FLAG + digits {
        assert word[1..] == digits;
      } else {
        assert word[2..] == digits && !Lua.IsDigit(word[1..][0]);
      }
    }
  }

  function FirstTime(words: seq<Str>): Option<Number> {
    if words == [] then None
    else if TimeFlag(words[0]).Some? then TimeFlag(words[0])
    else FirstTime(words[1..])
  }

  /** parse_t: the first `t` flag on the line. */
  method ParseT(line: Str) returns (r: Option<Number>)
    ensures r == FirstTime(WordsOf(line))
  {
    var rest := line;
    while rest != []
      invariant FirstTime(WordsOf(line)) == FirstTime(WordsOf(rest))
      decreases |rest|
    {
      if Lua.IsSpace(rest[0]) {
        rest := rest[1..];
      } else {
        var n := WordLength(rest);
        r := TimeFlag(rest[..n]);
        assert ([rest[..n]] + WordsOf(rest[n..]))[1..] == WordsOf(rest[n..]);
        if r.Some? {
          return;
        }
        rest := rest[n..];
      }
    }
    r := None;
  }

  ghost predicate IsWord(w: Str) {
    w != [] && forall c | c in w :: !Lua.IsSpace(c)
  }

  const BLANK: Str := " "

  /** A header line: words with a blank in between. */
  function Header(words: seq<Str>): Str {
    if words == [] then []
    else if |words| == 1 then words[0]
    else words[0] + BLANK + Header(words[1..])
  }

  lemma {:induction false} WordLengthOf(w: Str, rest: Str)
    requires (forall c | c in w :: !Lua.IsSpace(c)) && (rest == [] || Lua.IsSpace(rest[0]))
    ensures WordLength(w + rest) == |w|
  {
    if w == [] {
      assert w + rest == rest;
    } else {
      assert (w + rest)[1..] == w[1..] + rest;
      WordLengthOf(w[1..], rest);
    }
  }

  lemma WordFirst(w: Str, rest: Str)
    requires IsWord(w) && (rest == [] || Lua.IsSpace(rest[0]))
    ensures WordsOf(w + rest) == [w] + WordsOf(rest)
  {
    WordLengthOf(w, rest);
    assert (w + rest)[0] == w[0] && w[0] in w;
    assert (w + rest)[..|w|] == w && (w + rest)[|w|..] == rest;
  }

  /** Splitting a header line gives its words back. */
  lemma {:induction false} HeaderWords(words: seq<Str>)
    requires forall w | w in words :: IsWord(w)
    ensures WordsOf(Header(words)) == words
  {
    if |words| == 1 {
      WordFirst(words[0], []);
      assert words[0] + [] == words[0];
    } else if words != [] {
      var rest := BLANK + Header(words[1..]);
      HeaderWords(words[1..]);
      assert rest[1..] == Header(words[1..]);
      WordFirst(words[0], rest);
      assert words[0] + rest == Header(words);
    }
  }

  function Decimal(n: nat): (s: Str)
    ensures AllDigits(s) && Lua.DecimalValue(s) == n
  {
    if n < 10 then
      var s := [Lua.Digit(n)];
      assert s[..0] == [];
      s
    else
      var s := Decimal(n / 10) + [Lua.Digit(n % 10)];
      assert s[..|s| - 1] == Decimal(n / 10);
      s
  }

  const T_FLAG: Str := "t"
  const MINUS: Str := "-"

  /** How a server spells the flag. */
  function Flag(n: int): Str {
    if n >= 0 then T_FLAG + Decimal(n) else T_FLAG + MINUS + Decimal(-n)
  }

  lemma FlagReads(n: int)
    ensures IsWord(Flag(n)) && TimeFlag(Flag(n)) == Some(ToNumber(n))
  {
    if n >= 0 {
      assert Flag(n)[1..] == Decimal(n);
    } else {
      assert Flag(n)[2..] == Decimal(-n) && Flag(n)[1..][0] == '-';
      assert !Lua.IsDigit(Flag(n)[1]);
    }
  }

  lemma {:induction false} FirstTimeAt(before: seq<Str>, w: Str, after: seq<Str>)
    requires (forall x | x in before :: TimeFlag(x).None?) && TimeFlag(w).Some?
    ensures FirstTime(before + [w] + after) == TimeFlag(w)
  {
    var all := before + [w] + after;
    if before != [] {
      assert before[0] in before && all[0] == before[0];
      assert all[1..] == before[1..] + [w] + after;
      FirstTimeAt(before[1..], w, after);
    }
  }

  lemma {:induction false} NoTime(words: seq<Str>)
    requires forall x | x in words :: TimeFlag(x).None?
    ensures FirstTime(words) == None
  {
    if words != [] {
      assert words[0] in words;
      NoTime(words[1..]);
    }
  }

  /**
    Reading the flag off a header line undoes printing it, for every integer and
    whatever else is on the line; one beyond 64 bits comes back as a float.
   */
  lemma HeaderTime(before: seq<Str>, n: int, after: seq<Str>)
    requires (forall w | w in before + after :: IsWord(w)) && forall w | w in before :: TimeFlag(w).None?
    ensures FirstTime(WordsOf(Header(before + [Flag(n)] + after))) ==
      Some(if -I64_LIMIT <= n < I64_LIMIT then Integer(n) else Float(n))
    ensures (forall w | w in after :: TimeFlag(w).None?) ==> FirstTime(WordsOf(Header(before + after))) == None
  {
    FlagReads(n);
    HeaderWords(before + [Flag(n)] + after);
    FirstTimeAt(before, Flag(n), after);
    HeaderWords(before + after);
    if forall w | w in after :: TimeFlag(w).None? {
      NoTime(before + after);
    }
  }

  // ---------------------------------------------------------------- the value

  /** The last `vlen` bytes before the final CRLF; absent when there is nothing to cut or too little to cut from. */
  function Body(vlen: Option<nat>, raw: Option<Str>): Option<Str> {
    if vlen.Some? && vlen.value > 0 && raw.Some? && |raw.value| >= vlen.value + 2 then
      Some(raw.value[|raw.value| - vlen.value - 2..|raw.value| - 2])
    else None
  }

  /** A value is there iff the response announces one and is long enough; it sits right before the last two bytes. */
  ghost predicate IsBody(res: Response, value: Option<Str>) {
    && (value.Some? <==>
          res.vlen.Some? && res.vlen.value > 0 && res.raw.Some? && |res.raw.value| >= res.vlen.value + 2)
    && (value.Some? ==>
          var raw, n := res.raw.value, res.vlen.value;
          |value.value| == n && raw == raw[..|raw| - n - 2] + value.value + raw[|raw| - 2..])
  }

  const CRLF: Str := "\r\n"

  /**
    A framed response yields exactly its value, bytes that look like framing
    included; an empty one counts as absent.
   */
  lemma BodyOfFrame(header: Str, value: Str)
    ensures Body(Some(|value|), Some(header + CRLF + value + CRLF)) == if value == [] then None else Some(value)
  {
    var raw := header + CRLF + value + CRLF;
    assert raw[|header| + 2..|header| + 2 + |value|] == value;
  }

  // ---------------------------------------------------------------- entries

  ghost function MakeEntry(pool: Str, res: Option<Response>): Entry {
    var status := Classify(res);
    if status.Hit? then
      Entry(pool, status, res,
            if res.value.line.Some? then FirstTime(WordsOf(res.value.line.value)) else None,
            Body(res.value.vlen, res.value.raw), res.value.line)
    else Entry(pool, status, res, None, None, None)
  }

  /** `make`, step by step. */
  method Make(pool: Str, res: Option<Response>) returns (e: Entry)
    ensures e == MakeEntry(pool, res)
    ensures e.pool == pool && e.res == res
    ensures e.status == Hit <==> AnswersHit(res)
    ensures e.status == Miss <==> AnswersMiss(res)
    ensures e.status == Error <==> Fails(res)
    ensures !AnswersHit(res) ==> e.line.None? && e.t.None? && e.value.None?
    ensures AnswersHit(res) ==> e.line == res.value.line
    ensures AnswersHit(res) ==> e.t == if e.line.Some? then FirstTime(WordsOf(e.line.value)) else None
    ensures AnswersHit(res) ==> IsBody(res.value, e.value)
  {
    ClassifyIs(res);
    var status := Classify(res);
    var t: Option<Number>, value: Option<Str>, line: Option<Str> := None, None, None;
    if status.Hit? && res.Some? {
      line := res.value.line;
      if line.Some? {
        t := ParseT(line.value);
      }
      value := Body(res.value.vlen, res.value.raw);
    }
    e := Entry(pool, status, res, t, value, line);
  }

  /** One entry per pool, in the read order. */
  method BuildEntries(pools: seq<Str>, results: seq<Option<Response>>) returns (entries: seq<Entry>)
    requires |results| == |pools|
    ensures |entries| == |pools| && Built(entries)
    ensures forall i | 0 <= i < |pools| :: entries[i] == MakeEntry(pools[i], results[i])
  {
    entries := [];
    for i := 0 to |pools|
      invariant |entries| == i && forall j | 0 <= j < i :: entries[j] == MakeEntry(pools[j], results[j])
    {
      var e := Make(pools[i], results[i]);
      entries := entries + [e];
    }
  }

  ghost predicate Built(entries: seq<Entry>) {
    forall i | 0 <= i < |entries| :: entries[i] == MakeEntry(entries[i].pool, entries[i].res)
  }
}
