/**
  The wire format between the host and a WASM merge: 48-byte entry records,
  little-endian, pointing at the variable-length fields. `Record` is what
  encode_entry fills in (rust/crates/mcgateway-wasm-host/src/lib.rs),
  `EntryAt` what decode_entries reads (rust/crates/mcgateway-sdk/src/lib.rs).
 */
module Wire {
  import opened Text
  import opened Entries

  const U32_LIMIT: nat := 0x1_0000_0000
  const U64_LIMIT: nat := 0x1_0000_0000_0000_0000

  type u32 = n: int | 0 <= n < U32_LIMIT
  type u64 = n: int | 0 <= n < U64_LIMIT
  type i64 = n: int | -I64_LIMIT <= n < I64_LIMIT

  const ENTRY_SIZE: nat := 48

  /** A pool's response as a merge sees it: mcgateway_core::Entry. */
  datatype Item = Item(key: Str, pool: Str, status: Status, t: Option<i64>, value: Option<Str>, line: Option<Str>)

  /** Pointer and length of each variable-length field; (0, 0) stands for an absent one. */
  datatype FieldPtrs = FieldPtrs(key: (u32, u32), pool: (u32, u32), value: (u32, u32), line: (u32, u32))

  // ---------------------------------------------------------------- little-endian numbers

  function Power(k: nat): (p: nat)
    ensures p > 0
  {
    if k == 0 then 1 else 256 * Power(k - 1)
  }

  function ToLE(n: nat, k: nat): (s: Str)
    ensures |s| == k
  {
    if k == 0 then [] else [(n % 256) as char] + ToLE(n / 256, k - 1)
  }

  function FromLE(s: Str): nat {
    if s == [] then 0 else s[0] as int + 256 * FromLE(s[1..])
  }

  lemma {:induction false} LERoundTrip(n: nat, k: nat)
    requires n < Power(k)
    ensures FromLE(ToLE(n, k)) == n
  {
    if k > 0 {
      assert n / 256 < Power(k - 1);
      LERoundTrip(n / 256, k - 1);
      assert ToLE(n, k)[1..] == ToLE(n / 256, k - 1);
    }
  }

  /** The low byte comes first. */
  lemma LowByteFirst(n: nat, k: nat)
    requires k > 0
    ensures ToLE(n, k)[0] as int == n % 256 && ToLE(n, k)[1..] == ToLE(n / 256, k - 1)
  {
  }

  lemma Powers()
    ensures Power(4) == U32_LIMIT && Power(8) == U64_LIMIT
  {
    assert Power(1) == 256 && Power(2) == 0x1_0000 && Power(3) == 0x100_0000;
    assert Power(4) == U32_LIMIT;
    assert Power(5) == 0x100_0000_0000 && Power(6) == 0x1_0000_0000_0000;
    assert Power(7) == 0x100_0000_0000_0000;
  }

  /** Two's complement. */
  function Unsigned(t: i64): u64 {
    if t < 0 then t + U64_LIMIT else t
  }

  function Signed(n: u64): i64 {
    if n >= I64_LIMIT then n - U64_LIMIT else n
  }

  lemma TwosComplement(t: i64)
    ensures Unsigned(t) == t % U64_LIMIT && Signed(Unsigned(t)) == t
  {
  }

  function FromLE64(s: Str): (n: u64)
    requires |s| == 8
  {
    Powers();
    FromLEBound(s);
    FromLE(s)
  }

  function FromLE32(s: Str): (n: u32)
    requires |s| == 4
  {
    Powers();
    FromLEBound(s);
    FromLE(s)
  }

  lemma {:induction false} FromLEBound(s: Str)
    ensures FromLE(s) < Power(|s|)
  {
    if s != [] {
      FromLEBound(s[1..]);
    }
  }

  function LE32(n: u32): (s: Str)
    ensures |s| == 4 && FromLE32(s) == n
  {
    Powers();
    LERoundTrip(n, 4);
    ToLE(n, 4)
  }

  function LE64(n: u64): (s: Str)
    ensures |s| == 8 && FromLE64(s) == n
  {
    Powers();
    LERoundTrip(n, 8);
    ToLE(n, 8)
  }

  // ---------------------------------------------------------------- entry records

  function StatusCode(s: Status): u32 {
    match s
    case Hit => 0
    case Miss => 1
    case Error => 2
  }

  function StatusOf(n: u32): Status {
    if n == 0 then Hit else if n == 1 then Miss else Error
  }

  /** A code neither side defines reads as an error. */
  lemma StatusReads(n: u32)
    ensures StatusOf(n) == (if n == 0 then Hit else if n == 1 then Miss else Error)
    ensures n <= 2 ==> StatusCode(StatusOf(n)) == n
  {
  }

  function TimeWord(t: Option<i64>): i64 {
    if t.Some? then t.value else 0
  }

  /** The ten 32-bit words of a record, in order. */
  function Words(e: Item, f: FieldPtrs): seq<u32> {
    [f.key.0, f.key.1, f.pool.0, f.pool.1, f.value.0, f.value.1, f.line.0, f.line.1,
     StatusCode(e.status), if e.t.Some? then 1 else 0]
  }

  function Pack(words: seq<u32>): (s: Str)
    ensures |s| == 4 * |words|
  {
    if words == [] then [] else Pack(words[..|words| - 1]) + LE32(words[|words| - 1])
  }

  function Record(e: Item, f: FieldPtrs): (s: Str)
    ensures |s| == ENTRY_SIZE
  {
    Pack(Words(e, f)) + LE64(Unsigned(TimeWord(e.t)))
  }

  lemma {:induction false} PackedWord(words: seq<u32>, i: nat)
    requires i < |words|
    ensures FromLE32(Pack(words)[4 * i..4 * i + 4]) == words[i]
  {
    var init := words[..|words| - 1];
    if i == |words| - 1 {
      assert Pack(words)[4 * i..4 * i + 4] == LE32(words[i]);
    } else {
      PackedWord(init, i);
      assert Pack(words)[4 * i..4 * i + 4] == Pack(init)[4 * i..4 * i + 4];
    }
  }

  function Word(rec: Str, i: nat): u32
    requires |rec| == ENTRY_SIZE && i < 10
  {
    FromLE32(rec[4 * i..4 * i + 4])
  }

  lemma RecordWord(e: Item, f: FieldPtrs, i: nat)
    requires i < 10
    ensures Word(Record(e, f), i) == Words(e, f)[i]
  {
    PackedWord(Words(e, f), i);
    assert Record(e, f)[4 * i..4 * i + 4] == Pack(Words(e, f))[4 * i..4 * i + 4];
  }

  lemma RecordTime(e: Item, f: FieldPtrs)
    ensures Signed(FromLE64(Record(e, f)[40..48])) == TimeWord(e.t)
    ensures FromLE64(Record(e, f)[40..48]) == Unsigned(TimeWord(e.t))
  {
    assert Record(e, f)[40..48] == LE64(Unsigned(TimeWord(e.t)));
  }

  lemma WordOffsets(r: Str, w: seq<u32>)
    requires |r| == ENTRY_SIZE && |w| == 10 && forall i: nat | i < 10 :: Word(r, i) == w[i]
    ensures FromLE32(r[0..4]) == w[0] && FromLE32(r[4..8]) == w[1] && FromLE32(r[8..12]) == w[2]
    ensures FromLE32(r[12..16]) == w[3] && FromLE32(r[16..20]) == w[4] && FromLE32(r[20..24]) == w[5]
    ensures FromLE32(r[24..28]) == w[6] && FromLE32(r[28..32]) == w[7] && FromLE32(r[32..36]) == w[8]
    ensures FromLE32(r[36..40]) == w[9]
  {
    assert Word(r, 0) == w[0] && Word(r, 1) == w[1] && Word(r, 2) == w[2] && Word(r, 3) == w[3];
    assert Word(r, 4) == w[4] && Word(r, 5) == w[5] && Word(r, 6) == w[6] && Word(r, 7) == w[7];
    assert Word(r, 8) == w[8] && Word(r, 9) == w[9];
  }

  /** The record, byte by byte: four (pointer, length) pairs, the status code, whether there is a `t`, and the `t`. */
  lemma RecordLayout(e: Item, f: FieldPtrs)
    ensures
      var r := Record(e, f);
      && FromLE32(r[0..4]) == f.key.0 && FromLE32(r[4..8]) == f.key.1
      && FromLE32(r[8..12]) == f.pool.0 && FromLE32(r[12..16]) == f.pool.1
      && FromLE32(r[16..20]) == f.value.0 && FromLE32(r[20..24]) == f.value.1
      && FromLE32(r[24..28]) == f.line.0 && FromLE32(r[28..32]) == f.line.1
      && FromLE32(r[32..36]) == (match e.status case Hit => 0 case Miss => 1 case Error => 2)
      && FromLE32(r[36..40]) == (if e.t.Some? then 1 else 0)
      && FromLE64(r[40..48]) == (if e.t.Some? then e.t.value % U64_LIMIT else 0)
  {
    var r := Record(e, f);
    forall i: nat | i < 10 ensures Word(r, i) == Words(e, f)[i] {
      RecordWord(e, f, i);
    }
    WordOffsets(r, Words(e, f));
    RecordTime(e, f);
    TwosComplement(TimeWord(e.t));
  }

  // ---------------------------------------------------------------- UTF-8

  predicate Cont(b: Byte) {
    0x80 <= b as int <= 0xBF
  }

  /** Length of the well-formed UTF-8 sequence at the front of `s`, 0 if there is none (Unicode 15.0, table 3-7). */
  function Utf8Lead(s: Str): (n: nat)
    requires s != []
    ensures n <= |s|
  {
    var b := s[0] as int;
    if b <= 0x7F then 1
    else if 0xC2 <= b <= 0xDF && |s| >= 2 && Cont(s[1]) then 2
    else if |s| >= 3 && Cont(s[2]) && (
              || (b == 0xE0 && 0xA0 <= s[1] as int <= 0xBF)
              || (((0xE1 <= b <= 0xEC) || (0xEE <= b <= 0xEF)) && Cont(s[1]))
              || (b == 0xED && 0x80 <= s[1] as int <= 0x9F)) then 3
    else if |s| >= 4 && Cont(s[2]) && Cont(s[3]) && (
              || (b == 0xF0 && 0x90 <= s[1] as int <= 0xBF)
              || (0xF1 <= b <= 0xF3 && Cont(s[1]))
              || (b == 0xF4 && 0x80 <= s[1] as int <= 0x8F)) then 4
    else 0
  }

  predicate Utf8(s: Str) {
    s == [] || (Utf8Lead(s) > 0 && Utf8(s[Utf8Lead(s)..]))
  }

  /** A Unicode scalar value: a code point that is not a surrogate. */
  predicate Scalar(c: nat) {
    c < 0xD800 || 0xE000 <= c < 0x11_0000
  }

  function Trail(c: nat): (b: Byte)
    ensures Cont(b) && b as int == 0x80 + c % 64
  {
    (0x80 + c % 64) as char
  }

  /** The UTF-8 form of a scalar value (Unicode 15.0, table 3-6). */
  function Encoded(c: nat): Str
    requires Scalar(c)
  {
    if c < 0x80 then [c as char]
    else if c < 0x800 then [(0xC0 + c / 64) as char, Trail(c)]
    else if c < 0x1_0000 then [(0xE0 + c / 64 / 64) as char, Trail(c / 64), Trail(c)]
    else [(0xF0 + c / 64 / 64 / 64) as char, Trail(c / 64 / 64), Trail(c / 64), Trail(c)]
  }

  function EncodedAll(cs: seq<nat>): Str
    requires forall i | 0 <= i < |cs| :: Scalar(cs[i])
  {
    if cs == [] then [] else Encoded(cs[0]) + EncodedAll(cs[1..])
  }

  lemma EncodedLeads(c: nat, rest: Str)
    requires Scalar(c)
    ensures Utf8Lead(Encoded(c) + rest) == |Encoded(c)|
  {
    if 0x800 <= c < 0x1_0000 {
      ThreeLead(c, rest);
    } else if c >= 0x1_0000 {
      FourLead(c, rest);
    }
  }

  lemma ThreeLead(c: nat, rest: Str)
    requires Scalar(c) && 0x800 <= c < 0x1_0000
    ensures Utf8Lead(Encoded(c) + rest) == 3
  {
    var s, hi := Encoded(c) + rest, c / 64;
    assert s[0] as int == 0xE0 + hi / 64 && s[1] as int == 0x80 + hi % 64 && Cont(s[1]) && Cont(s[2]);
    assert hi < 0x360 || 0x380 <= hi;
  }

  lemma FourLead(c: nat, rest: Str)
    requires Scalar(c) && 0x1_0000 <= c
    ensures Utf8Lead(Encoded(c) + rest) == 4
  {
    var s, hi := Encoded(c) + rest, c / 64 / 64;
    assert s[0] as int == 0xF0 + hi / 64 && s[1] as int == 0x80 + hi % 64;
    assert Cont(s[1]) && Cont(s[2]) && Cont(s[3]);
    assert 0x10 <= hi < 0x110;
  }

  lemma TakeSix(q: nat, r: nat)
    requires r < 64
    ensures (q * 64 + r) / 64 == q && (q * 64 + r) % 64 == r
  {
  }

  /** The scalar value a well-formed front stands for. */
  lemma LeadEncodes(s: Str) returns (c: nat)
    requires s != [] && Utf8Lead(s) > 0
    ensures Scalar(c) && Encoded(c) == s[..Utf8Lead(s)]
  {
    var n, b := Utf8Lead(s), s[0] as int;
    if n == 1 {
      c := b;
    } else if n == 2 {
      c := TwoBytes(s);
    } else if n == 3 {
      c := ThreeBytes(s);
    } else {
      c := FourBytes(s);
    }
  }

  lemma TwoBytes(s: Str) returns (c: nat)
    requires s != [] && Utf8Lead(s) == 2
    ensures Scalar(c) && Encoded(c) == s[..2]
  {
    var b, x := s[0] as int - 0xC0, s[1] as int - 0x80;
    c := b * 64 + x;
    TakeSix(b, x);
  }

  lemma ThreeBytes(s: Str) returns (c: nat)
    requires s != [] && Utf8Lead(s) == 3
    ensures Scalar(c) && Encoded(c) == s[..3]
  {
    var b, x, y := s[0] as int - 0xE0, s[1] as int - 0x80, s[2] as int - 0x80;
    c := (b * 64 + x) * 64 + y;
    TakeSix(b * 64 + x, y);
    TakeSix(b, x);
  }

  lemma FourBytes(s: Str) returns (c: nat)
    requires s != [] && Utf8Lead(s) == 4
    ensures Scalar(c) && Encoded(c) == s[..4]
  {
    var b, x, y, z := s[0] as int - 0xF0, s[1] as int - 0x80, s[2] as int - 0x80, s[3] as int - 0x80;
    c := ((b * 64 + x) * 64 + y) * 64 + z;
    TakeSix((b * 64 + x) * 64 + y, z);
    TakeSix(b * 64 + x, y);
    TakeSix(b, x);
  }

  /** What a byte string must be to pass for text: the encoding of some scalar values. */
  lemma {:induction false} TextDecodes(s: Str) returns (cs: seq<nat>)
    requires Utf8(s)
    ensures (forall i | 0 <= i < |cs| :: Scalar(cs[i])) && EncodedAll(cs) == s
    decreases |s|
  {
    cs := [];
    if s != [] {
      var n := Utf8Lead(s);
      var c := LeadEncodes(s);
      var rest := TextDecodes(s[n..]);
      cs := [c] + rest;
      assert cs[1..] == rest && s == s[..n] + s[n..];
    }
  }

  lemma {:induction false} EncodedIsText(cs: seq<nat>)
    requires forall i | 0 <= i < |cs| :: Scalar(cs[i])
    ensures Utf8(EncodedAll(cs))
  {
    if cs != [] {
      var first, rest := Encoded(cs[0]), EncodedAll(cs[1..]);
      EncodedIsText(cs[1..]);
      EncodedLeads(cs[0], rest);
      assert (first + rest)[|first|..] == rest;
    }
  }

  /** A merge's entries carry pool names as Rust strings. */
  ghost predicate PoolsAreText(items: seq<Item>) {
    forall i | 0 <= i < |items| :: Utf8(items[i].pool)
  }

  // ---------------------------------------------------------------- memory

  function Bytes(o: Option<Str>): Str {
    if o.Some? then o.value else []
  }

  /** An entry's variable-length fields, laid end to end. */
  function Blob(e: Item): Str {
    e.key + e.pool + Bytes(e.value) + Bytes(e.line)
  }

  /** Where the fields of `e` are when its blob starts at `base`. */
  function FieldsAt(base: nat, e: Item): FieldPtrs
    requires base + |Blob(e)| < U32_LIMIT
  {
    var v := base + |e.key| + |e.pool|;
    FieldPtrs(
      (base, |e.key|),
      (base + |e.key|, |e.pool|),
      if e.value.Some? then (v, |e.value.value|) else (0, 0),
      if e.line.Some? then (v + |Bytes(e.value)|, |e.line.value|) else (0, 0))
  }

  /** The bytes a (pointer, length) pair denotes; reading past the end of memory is not modelled. */
  function Slice(mem: Str, ptr: nat, len: nat): Str {
    if ptr + len <= |mem| then mem[ptr..ptr + len] else []
  }

  /** `slice::from_raw_parts` behind a null check. */
  function OptionalSlice(mem: Str, ptr: nat, len: nat): Option<Str> {
    if ptr == 0 then None else Some(Slice(mem, ptr, len))
  }

  /** One turn of the loop of decode_entries: the entry whose record is `rec`. */
  function EntryAt(mem: Str, rec: Str): Item
    requires |rec| == ENTRY_SIZE
  {
    var pool := Slice(mem, Word(rec, 2), Word(rec, 3));
    Item(
      Slice(mem, Word(rec, 0), Word(rec, 1)),
      if Utf8(pool) then pool else [],
      StatusOf(Word(rec, 8)),
      if Word(rec, 9) != 0 then Some(Signed(FromLE64(rec[40..48]))) else None,
      OptionalSlice(mem, Word(rec, 4), Word(rec, 5)),
      OptionalSlice(mem, Word(rec, 6), Word(rec, 7)))
  }

  /** The blob of `e` is in memory at `base`. */
  predicate Holds(mem: Str, base: nat, e: Item) {
    0 < base && base + |Blob(e)| <= |mem| < U32_LIMIT && mem[base..base + |Blob(e)|] == Blob(e)
  }

  lemma SliceOf(mem: Str, base: nat, whole: Str, from: nat, part: Str)
    requires base + |whole| <= |mem| && mem[base..base + |whole|] == whole
    requires from + |part| <= |whole| && whole[from..from + |part|] == part
    ensures Slice(mem, base + from, |part|) == part
  {
    var got := mem[base + from..base + from + |part|];
    forall i | 0 <= i < |part| ensures got[i] == part[i] {
      assert part[i] == whole[from..from + |part|][i] == whole[from + i];
      assert whole[from + i] == mem[base..base + |whole|][from + i];
    }
    assert got == part;
  }

  /**
    Reading a record back gives the entry it was written from: key, pool, status,
    a negative `t` as much as a positive one, and a present but empty value or
    line as something else than an absent one.
   */
  lemma EntryRoundTrip(mem: Str, base: nat, e: Item)
    requires Holds(mem, base, e) && Utf8(e.pool)
    ensures EntryAt(mem, Record(e, FieldsAt(base, e))) == e
  {
    var f := FieldsAt(base, e);
    FieldsRead(mem, base, e);
    RecordWords(e, f);
    RecordTime(e, f);
    ReadBack(mem, Record(e, f), e, f);
  }

  /** Each pointer pair denotes its field; an absent one is null, a present one never. */
  ghost predicate Denote(mem: Str, f: FieldPtrs, e: Item) {
    && Slice(mem, f.key.0, f.key.1) == e.key && Slice(mem, f.pool.0, f.pool.1) == e.pool
    && OptionalSlice(mem, f.value.0, f.value.1) == e.value && OptionalSlice(mem, f.line.0, f.line.1) == e.line
  }

  lemma FieldsRead(mem: Str, base: nat, e: Item)
    requires Holds(mem, base, e)
    ensures Denote(mem, FieldsAt(base, e), e)
  {
    var k, p, v := |e.key|, |e.pool|, |Bytes(e.value)|;
    SlicesRead(mem, base, e);
    assert base + (k + p) == base + k + p && base + (k + p + v) == base + k + p + v;
  }

  lemma SlicesRead(mem: Str, base: nat, e: Item)
    requires Holds(mem, base, e)
    ensures
      var k, p, v := |e.key|, |e.pool|, |Bytes(e.value)|;
      && Slice(mem, base, k) == e.key && Slice(mem, base + k, p) == e.pool
      && Slice(mem, base + (k + p), v) == Bytes(e.value)
      && Slice(mem, base + (k + p + v), |Bytes(e.line)|) == Bytes(e.line)
  {
    var k, p, v := |e.key|, |e.pool|, |Bytes(e.value)|;
    Regrouped(e.key, e.pool, Bytes(e.value), Bytes(e.line));
    PartRead(mem, base, Blob(e), [], e.key, e.pool + Bytes(e.value) + Bytes(e.line));
    PartRead(mem, base, Blob(e), e.key, e.pool, Bytes(e.value) + Bytes(e.line));
    PartRead(mem, base, Blob(e), e.key + e.pool, Bytes(e.value), Bytes(e.line));
    PartRead(mem, base, Blob(e), e.key + e.pool + Bytes(e.value), Bytes(e.line), []);
  }

  lemma Regrouped(a: Str, b: Str, c: Str, d: Str)
    ensures [] + a + (b + c + d) == a + b + c + d && a + b + (c + d) == a + b + c + d
    ensures a + b + c + d + [] == a + b + c + d
  {
  }

  lemma PartRead(mem: Str, base: nat, whole: Str, before: Str, part: Str, after: Str)
    requires base + |whole| <= |mem| && mem[base..base + |whole|] == whole && before + part + after == whole
    ensures Slice(mem, base + |before|, |part|) == part
  {
    SliceOf(mem, base, whole, |before|, part);
  }

  lemma ReadBack(mem: Str, rec: Str, e: Item, f: FieldPtrs)
    requires |rec| == ENTRY_SIZE && Denote(mem, f, e) && Utf8(e.pool)
    requires forall i | 0 <= i < 10 :: Word(rec, i) == Words(e, f)[i]
    requires Signed(FromLE64(rec[40..48])) == TimeWord(e.t)
    ensures EntryAt(mem, rec) == e
  {
    var w := Words(e, f);
    assert Word(rec, 0) == w[0] && Word(rec, 1) == w[1] && Word(rec, 2) == w[2] && Word(rec, 3) == w[3];
    assert Word(rec, 4) == w[4] && Word(rec, 5) == w[5] && Word(rec, 6) == w[6] && Word(rec, 7) == w[7];
    assert Word(rec, 8) == w[8] && Word(rec, 9) == w[9];
  }

  lemma RecordWords(e: Item, f: FieldPtrs)
    ensures forall i | 0 <= i < 10 :: Word(Record(e, f), i) == Words(e, f)[i]
  {
    forall i | 0 <= i < 10 ensures Word(Record(e, f), i) == Words(e, f)[i] {
      RecordWord(e, f, i);
    }
  }

  /** Writing `data` at `at`. */
  function Splice(mem: Str, at: nat, data: Str): (r: Str)
    requires at + |data| <= |mem|
    ensures |r| == |mem|
  {
    mem[..at] + data + mem[at + |data|..]
  }

  /** A write right behind what is already in place extends it. */
  lemma SpliceExtends(mem: Str, base: nat, done: Str, data: Str)
    requires base + |done| + |data| <= |mem| && mem[base..base + |done|] == done
    ensures Splice(mem, base + |done|, data)[base..base + |done| + |data|] == done + data
  {
    var r := Splice(mem, base + |done|, data);
    forall i | 0 <= i < |done| + |data| ensures r[base + i] == (done + data)[i] {
      if i < |done| {
        assert r[base + i] == mem[base + i] == mem[base..base + |done|][i];
      }
    }
  }

  /** A write leaves alone what it does not overlap. */
  lemma SpliceApart(mem: Str, at: nat, data: Str, ptr: nat, len: nat)
    requires at + |data| <= |mem| && ptr + len <= |mem|
    requires ptr + len <= at || at + |data| <= ptr
    ensures Splice(mem, at, data)[ptr..ptr + len] == mem[ptr..ptr + len]
  {
    var r := Splice(mem, at, data);
    assert forall i | ptr <= i < ptr + len :: r[i] == mem[i];
  }
}
