/**
  One merge call across the WASM boundary: the host writes the entries into the
  guest's linear memory through the guest's own allocator, calls the merge, reads
  the result back and frees what it must
  (rust/crates/mcgateway-wasm-host/src/lib.rs, rust/crates/mcgateway-sdk/src/lib.rs).

  `Guest` stands for the module instance. An honest guest is one built with the
  SDK: its allocator hands out non-null blocks apart from every live one and
  leaves live blocks alone. A guest that is not honest may do anything to its own
  memory and return any number. Which calls into the guest trap is up to the
  oracle `traps`, by the number of the call. Only the contracts of its methods
  are used, so what is proved holds of every such guest.
 */
module Abi {
  import opened Text
  import opened Replies
  import opened Wire

  const MAX_GUEST_MEMORY: nat := 16 * 1024 * 1024

  /** What a merge compiled for wasm32 can return: an index is a u32, and a reply fits in the guest's memory. */
  type GuestResult = r: MergeResult |
      && (r.Winner? ==> r.index < U32_LIMIT)
      && (r.Synthesized? ==> |r.bytes| <= MAX_GUEST_MEMORY)
    witness MergeMiss

  /** A block of guest memory with the layout it was allocated under. */
  datatype Region = Region(ptr: nat, size: nat, align: nat)

  function AtLeastOne(n: nat): nat {
    if n == 0 then 1 else n
  }

  /** `layout(size, align)` at an address: sizes and alignments of zero count as one. */
  function Block(ptr: nat, size: nat, align: nat): Region {
    Region(ptr, AtLeastOne(size), AtLeastOne(align))
  }

  predicate Apart(a: Region, b: Region) {
    a.ptr + a.size <= b.ptr || b.ptr + b.size <= a.ptr
  }

  predicate Inside(r: Region, mem: Str) {
    0 < r.ptr && r.ptr + r.size <= |mem|
  }

  predicate Sane(mem: Str, live: set<Region>) {
    && (forall r | r in live :: Inside(r, mem))
    && (forall r, q | r in live && q in live && r != q :: Apart(r, q))
  }

  function Content(mem: Str, r: Region): Str {
    if Inside(r, mem) then mem[r.ptr..r.ptr + r.size] else []
  }

  /** Every block of `live` is still there with what it held. */
  predicate Kept(before: Str, after: Str, live: set<Region>) {
    forall r | r in live :: Inside(r, before) && Inside(r, after) && Content(before, r) == Content(after, r)
  }

  lemma KeptTrans(a: Str, b: Str, c: Str, live: set<Region>, more: set<Region>)
    requires Kept(a, b, live) && Kept(b, c, more) && live <= more
    ensures Kept(a, c, live)
  {
  }

  // ---------------------------------------------------------------- the guest

  /** The bytes a request takes at most, when it is met at the end of the memory. */
  function Request(size: nat, align: nat): nat {
    AtLeastOne(size) + AtLeastOne(align)
  }

  /** A block an honest allocator may hand out, and the memory it then leaves behind. */
  ghost predicate Granted(mem: Str, live: set<Region>, b: Region, after: Str) {
    && Inside(b, after) && b.align > 0 && b.ptr % b.align == 0
    && Kept(mem, after, live) && forall q | q in live :: Apart(b, q)
  }

  lemma GrantedSane(mem: Str, live: set<Region>, b: Region, after: Str)
    requires Sane(mem, live) && b.align > 0 && b.size > 0 && Granted(mem, live, b, after)
    ensures b !in live && Sane(after, live + {b})
  {
  }

  function RoundUp(n: nat, a: nat): (r: nat)
    requires a > 0
    ensures n <= r < n + a && r % a == 0
  {
    var q := n / a;
    MultipleOf(q, a);
    MultipleOf(q + 1, a);
    assert n == a * q + n % a;
    assert a * (q + 1) == a * q + a;
    if n % a == 0 then n else a * (q + 1)
  }

  lemma MultipleOf(q: nat, a: nat)
    requires a > 0
    ensures (a * q) % a == 0
  {
    var r, d := (a * q) % a, (a * q) / a;
    assert a * q == a * d + r;
    assert a * (q - d) == r;
    if d < q {
      AtLeastOnce(a, q - d);
    } else if d > q {
      AtLeastOnce(a, d - q);
    }
  }

  lemma AtLeastOnce(a: nat, k: nat)
    requires k > 0
    ensures a * k >= a
  {
    assert a * k == a * (k - 1) + a;
  }

  /** Growing the memory makes room for a block behind everything else. */
  lemma GrowthGrants(mem: Str, live: set<Region>, b: Region, extra: Str)
    requires Sane(mem, live) && |mem| <= b.ptr && 0 < b.ptr && b.align > 0 && b.ptr % b.align == 0
    requires b.ptr + b.size == |mem| + |extra|
    ensures Granted(mem, live, b, mem + extra)
  {
    var after := mem + extra;
    forall q | q in live
      ensures Inside(q, mem) && Inside(q, after) && Content(mem, q) == Content(after, q) && Apart(b, q)
    {
      assert Inside(q, mem);
      assert after[q.ptr..q.ptr + q.size] == mem[q.ptr..q.ptr + q.size];
    }
  }

  const ZERO: Byte := 0 as char

  class Guest {
    const honest: bool
    /** The merge function the module was built around. */
    const user: seq<Item> -> GuestResult
    /** Whether the n-th call into the guest traps. */
    const traps: nat -> bool
    /** How much further than a request needs an honest allocator may grow the memory. */
    const slack: nat
    var mem: Str
    /** The allocator's own record of what it has handed out. */
    var live: set<Region>
    var calls: nat

    ghost predicate Valid()
      reads this
    {
      |mem| <= MAX_GUEST_MEMORY && (honest ==> Sane(mem, live))
    }

    /** None of the calls from the given one on has trapped. */
    ghost predicate Sound(from: nat)
      reads this
    {
      forall n | from <= n < calls :: !traps(n)
    }

    /** An instance starts with the module's data in memory. */
    constructor (honest: bool, user: seq<Item> -> GuestResult, traps: nat -> bool, slack: nat, image: Str)
      requires |image| <= MAX_GUEST_MEMORY
      ensures Valid() && live == {} && mem == image && calls == 0
      ensures this.honest == honest && this.user == user && this.traps == traps && this.slack == slack
    {
      this.honest := honest;
      this.user := user;
      this.traps := traps;
      this.slack := slack;
      mem := image;
      live := {};
      calls := 0;
    }

    /** mcgw_alloc; `None` is a trap. An honest guest traps when the oracle says so or the memory is full. */
    method Alloc(size: nat, align: nat) returns (r: Option<u32>)
      requires Valid()
      modifies this
      ensures Valid() && calls == old(calls) + 1
      ensures traps(old(calls)) ==> r.None?
      ensures honest && r.None? ==>
        traps(old(calls)) || |old(mem)| + Request(size, align) > MAX_GUEST_MEMORY
      ensures honest ==> Kept(old(mem), mem, old(live))
      ensures honest ==> |old(mem)| <= |mem| <= |old(mem)| + Request(size, align) + slack
      ensures honest && r.None? ==> live == old(live)
      ensures honest && r.Some? ==>
        var b := Block(r.value, size, align);
        && b !in old(live) && live == old(live) + {b} && Inside(b, mem)
        && (forall q | q in old(live) :: Apart(b, q))
        && b.ptr % b.align == 0
    {
      var trap := traps(calls);
      calls := calls + 1;
      var m: Str := *;
      var n: int := *;
      var p: u32 := if 0 <= n < U32_LIMIT then n else 0;
      if !honest {
        if |m| <= MAX_GUEST_MEMORY {
          mem := m;
        }
        return if trap then None else Some(p);
      }
      if trap {
        return None;
      }
      var b := Block(p, size, align);
      var chosen := |mem| <= |m| <= MAX_GUEST_MEMORY && |m| <= |mem| + Request(size, align) + slack
        && Inside(b, m) && p % b.align == 0 && Kept(mem, m, live) && forall q | q in live :: Apart(b, q);
      if !chosen {
        var end := RoundUp(AtLeastOne(|mem|), b.align);
        if end + b.size > MAX_GUEST_MEMORY {
          return None;
        }
        p := end;
        b := Block(p, size, align);
        var extra := seq(p + b.size - |mem|, _ => ZERO);
        GrowthGrants(mem, live, b, extra);
        m := mem + extra;
      }
      GrantedSane(mem, live, b, m);
      mem := m;
      live := live + {b};
      r := Some(p);
    }

    /** mcgw_dealloc. An honest guest may rely on being given a block it allocated, with its layout. */
    method Dealloc(ptr: u32, size: nat, align: nat) returns (ok: bool)
      requires Valid()
      requires honest && ptr != 0 ==> Block(ptr, size, align) in live
      modifies this
      ensures Valid() && calls == old(calls) + 1
      ensures ok <==> !traps(old(calls))
      ensures honest && ok ==> live == old(live) - (if ptr == 0 then {} else {Block(ptr, size, align)})
      ensures honest ==> live <= old(live) && Kept(old(mem), mem, live) && |mem| == |old(mem)|
    {
      ok := !traps(calls);
      calls := calls + 1;
      var m: Str := *;
      if honest {
        if ok {
          live := live - (if ptr == 0 then {} else {Block(ptr, size, align)});
        }
        if |m| == |mem| && Kept(mem, m, live) {
          mem := m;
        }
      } else if |m| <= MAX_GUEST_MEMORY {
        mem := m;
      }
    }

    /** memory.write from the host: bounds-checked against the memory as it is now. */
    method Write(at: nat, data: Str) returns (ok: bool)
      requires Valid()
      modifies this`mem
      ensures ok <==> at + |data| <= |old(mem)|
      ensures ok ==> mem == Splice(old(mem), at, data)
      ensures !ok ==> mem == old(mem)
    {
      ok := at + |data| <= |mem|;
      if ok {
        mem := Splice(mem, at, data);
      }
    }

    method Read(at: nat, len: nat) returns (r: Option<Str>)
      ensures r.Some? <==> at + len <= |mem|
      ensures r.Some? ==> r.value == mem[at..at + len]
    {
      r := if at + len <= |mem| then Some(mem[at..at + len]) else None;
    }
  }

  /** Block `r` may have been written to: the others are as they were, and the memory is sane. */
  ghost predicate Rewritten(before: Str, after: Str, live: set<Region>, r: Region) {
    Kept(before, after, live - {r}) && Sane(after, live)
  }

  /** A write inside one live block keeps all the others, and the memory sane. */
  lemma WriteKeepsOthers(mem: Str, live: set<Region>, r: Region, at: nat, data: Str)
    requires Sane(mem, live) && r in live && r.ptr <= at && at + |data| <= r.ptr + r.size
    ensures Inside(r, mem) && Rewritten(mem, Splice(mem, at, data), live, r)
  {
    assert Inside(r, mem);
    var after := Splice(mem, at, data);
    forall q | q in live - {r} ensures Inside(q, mem) && Inside(q, after) && Content(mem, q) == Content(after, q) {
      assert Apart(q, r);
      SpliceApart(mem, at, data, q.ptr, q.size);
    }
    forall q | q in live ensures Inside(q, after) {
      assert Inside(q, mem);
    }
  }

  // ---------------------------------------------------------------- writing one entry's fields

  /** The block an entry's fields go into. */
  function FieldRegion(base: nat, e: Item): Region {
    Block(base, |Blob(e)|, 1)
  }

  /** The next field, right behind the `off` bytes already written. The caller shows that the sum is a u32. */
  method AppendField(g: Guest, base: u32, off: nat, data: Str, ghost r: Region, ghost done: Str) returns (ok: bool)
    requires g.Valid() && base + off < U32_LIMIT
    requires g.honest ==> r in g.live && r.ptr == base && off + |data| <= r.size && |done| == off
    requires g.honest ==> base + off <= |g.mem| && g.mem[base..base + off] == done
    modifies g`mem
    ensures g.Valid() && |g.mem| == |old(g.mem)|
    ensures ok ==> base + off + |data| <= |g.mem|
    ensures g.honest ==> ok && Kept(old(g.mem), g.mem, g.live - {r})
    ensures g.honest ==> g.mem[base..base + off + |data|] == done + data
  {
    ghost var before := g.mem;
    if g.honest {
      AppendInside(before, g.live, r, done, data);
    }
    ok := g.Write(base + off, data);
  }

  lemma AppendInside(mem: Str, live: set<Region>, r: Region, done: Str, data: Str)
    requires Sane(mem, live) && r in live && |done| + |data| <= r.size
    requires r.ptr + |done| <= |mem| && mem[r.ptr..r.ptr + |done|] == done
    ensures r.ptr + |done| + |data| <= |mem|
    ensures Rewritten(mem, Splice(mem, r.ptr + |done|, data), live, r)
    ensures Splice(mem, r.ptr + |done|, data)[r.ptr..r.ptr + |done| + |data|] == done + data
  {
    assert Inside(r, mem);
    WriteKeepsOthers(mem, live, r, r.ptr + |done|, data);
    SpliceExtends(mem, r.ptr, done, data);
  }

  /** The optional field behind what is written; an absent one writes nothing. */
  method AppendOptional(g: Guest, base: u32, off: nat, data: Option<Str>, ghost r: Region, ghost done: Str)
    returns (ok: bool)
    requires g.Valid() && base + off <= |g.mem|
    requires g.honest ==> r in g.live && r.ptr == base && off + |Bytes(data)| <= r.size && |done| == off
    requires g.honest ==> g.mem[base..base + off] == done
    modifies g`mem
    ensures g.Valid() && |g.mem| == |old(g.mem)|
    ensures ok ==> base + off + |Bytes(data)| <= |g.mem|
    ensures g.honest ==> ok && Kept(old(g.mem), g.mem, g.live - {r})
    ensures g.honest ==> g.mem[base..base + off + |Bytes(data)|] == done + Bytes(data)
  {
    ok := true;
    if data.Some? {
      ok := AppendField(g, base, off, data.value, r, done);
    }
  }

  /** The four writes of FieldPtrs::write, at `base`. No sum of `base` and an offset leaves u32. */
  method WriteBlob(g: Guest, base: u32, e: Item, ghost r: Region) returns (ok: bool)
    requires g.Valid()
    requires g.honest ==> r in g.live && r == FieldRegion(base, e)
    modifies g`mem
    ensures g.Valid() && |g.mem| == |old(g.mem)|
    ensures ok ==> base + |Blob(e)| <= |g.mem|
    ensures g.honest ==> ok && Kept(old(g.mem), g.mem, g.live - {r})
    ensures g.honest ==> g.mem[base..base + |Blob(e)|] == Blob(e)
  {
    ghost var others := g.live - {r};
    var k, p, v := |e.key|, |e.pool|, |Bytes(e.value)|;
    assert |Blob(e)| == k + p + v + |Bytes(e.line)|;
    if g.honest {
      assert Inside(r, g.mem);
    }
    ok := AppendField(g, base, 0, e.key, r, []);
    if !ok {
      return;
    }
    assert [] + e.key == e.key;
    ghost var mem1 := g.mem;
    ok := AppendField(g, base, k, e.pool, r, e.key);
    if !ok {
      return;
    }
    ghost var mem2 := g.mem;
    ok := AppendOptional(g, base, k + p, e.value, r, e.key + e.pool);
    if !ok {
      return;
    }
    ghost var mem3 := g.mem;
    ok := AppendOptional(g, base, k + p + v, e.line, r, e.key + e.pool + Bytes(e.value));
    if g.honest {
      KeptTrans(old(g.mem), mem1, mem2, others, others);
      KeptTrans(old(g.mem), mem2, mem3, others, others);
      KeptTrans(old(g.mem), mem3, g.mem, others, others);
    }
  }

  /** What an entry's fields take of the guest's memory, at most. */
  function FieldCost(slack: nat, e: Item): nat {
    Request(|Blob(e)|, 1) + slack
  }

  function FieldsCost(slack: nat, items: seq<Item>): (c: nat)
    ensures c >= 2 * |items|
  {
    if items == [] then 0
    else FieldsCost(slack, items[..|items| - 1]) + FieldCost(slack, items[|items| - 1])
  }

  lemma {:induction false} FieldsCostPrefix(slack: nat, items: seq<Item>, n: nat)
    requires n < |items|
    ensures FieldsCost(slack, items[..n + 1]) == FieldsCost(slack, items[..n]) + FieldCost(slack, items[n])
    ensures FieldsCost(slack, items[..n + 1]) <= FieldsCost(slack, items)
    decreases |items|
  {
    assert items[..n + 1][..n] == items[..n];
    if n + 1 < |items| {
      var init := items[..|items| - 1];
      FieldsCostPrefix(slack, init, n);
      assert init[..n + 1] == items[..n + 1];
    } else {
      assert items[..n + 1] == items;
    }
  }

  /**
    FieldPtrs::write: one allocation for all of an entry's variable-length
    fields. With an honest guest they end up in a block of their own, laid end to
    end; it fails only if the guest trapped or its memory is too full.
   */
  method WriteFields(g: Guest, e: Item) returns (r: Option<FieldPtrs>, ghost base: nat)
    requires g.Valid()
    modifies g
    ensures g.Valid() && old(g.calls) <= g.calls <= old(g.calls) + 1
    ensures g.honest && r.None? ==>
      !g.Sound(old(g.calls)) || |old(g.mem)| + FieldCost(g.slack, e) > MAX_GUEST_MEMORY
    ensures g.honest ==> |g.mem| <= |old(g.mem)| + FieldCost(g.slack, e)
    ensures g.honest && r.Some? ==>
      && FieldRegion(base, e) !in old(g.live) && g.live == old(g.live) + {FieldRegion(base, e)}
      && Kept(old(g.mem), g.mem, old(g.live))
      && Holds(g.mem, base, e) && r.value == FieldsAt(base, e)
  {
    base := 0;
    var k, p, v, l := |e.key|, |e.pool|, |Bytes(e.value)|, |Bytes(e.line)|;
    assert |Blob(e)| == k + p + v + l;
    if k >= U32_LIMIT || p >= U32_LIMIT || v >= U32_LIMIT || l >= U32_LIMIT || k + p + v + l >= U32_LIMIT {
      return None, base;
    }
    var a := g.Alloc(AtLeastOne(k + p + v + l), 1);
    if a.None? || a.value == 0 {
      return None, base;
    }
    ghost var mid := g.mem;
    base := a.value;
    var ok := WriteBlob(g, a.value, e, FieldRegion(a.value, e));
    if !ok {
      return None, base;
    }
    if g.honest {
      assert old(g.live) == g.live - {FieldRegion(base, e)};
      KeptTrans(old(g.mem), mid, g.mem, old(g.live), old(g.live));
    }
    var value: (u32, u32) := if e.value.Some? then (a.value + k + p, v) else (0, 0);
    var line: (u32, u32) := if e.line.Some? then (a.value + k + p + v, l) else (0, 0);
    r := Some(FieldPtrs((a.value, k), (a.value + k, p), value, line));
  }

  // ---------------------------------------------------------------- writing all the entries

  function FieldRegions(items: seq<Item>, bases: seq<nat>): set<Region>
    requires |bases| <= |items|
  {
    set i | 0 <= i < |bases| :: FieldRegion(bases[i], items[i])
  }

  /** The blobs of the first entries are in memory, each in a live block. */
  ghost predicate Stored(mem: Str, live: set<Region>, items: seq<Item>, bases: seq<nat>) {
    && |bases| <= |items|
    && forall i | 0 <= i < |bases| :: Holds(mem, bases[i], items[i]) && FieldRegion(bases[i], items[i]) in live
  }

  lemma HoldsKept(before: Str, after: Str, live: set<Region>, base: nat, e: Item)
    requires Holds(before, base, e) && Kept(before, after, live) && FieldRegion(base, e) in live
    requires |after| < U32_LIMIT
    ensures Holds(after, base, e)
  {
    var r := FieldRegion(base, e);
    var n := |Blob(e)|;
    assert before[base..base + n] == Content(before, r)[..n];
    assert after[base..base + n] == Content(after, r)[..n];
  }

  lemma StoredKept(before: Str, after: Str, live: set<Region>, live': set<Region>, items: seq<Item>, bases: seq<nat>)
    requires Stored(before, live, items, bases) && Kept(before, after, live) && live <= live' && |after| < U32_LIMIT
    ensures Stored(after, live', items, bases)
  {
    forall i | 0 <= i < |bases| ensures Holds(after, bases[i], items[i]) && FieldRegion(bases[i], items[i]) in live' {
      HoldsKept(before, after, live, bases[i], items[i]);
    }
  }

  lemma FieldRegionsAdd(items: seq<Item>, bases: seq<nat>, base: nat)
    requires |bases| < |items|
    ensures FieldRegions(items, bases + [base]) == FieldRegions(items, bases) + {FieldRegion(base, items[|bases|])}
  {
    var more := bases + [base];
    forall r
      ensures r in FieldRegions(items, more) <==> r in FieldRegions(items, bases) + {FieldRegion(base, items[|bases|])}
    {
      if r in FieldRegions(items, bases) {
        var i :| 0 <= i < |bases| && r == FieldRegion(bases[i], items[i]);
        assert more[i] == bases[i];
      }
      if r == FieldRegion(base, items[|bases|]) {
        assert more[|bases|] == base;
      }
    }
  }

  /** Where things stand once the fields of the first entries are written, starting from `mem0` and `live0`. */
  ghost predicate Placed(mem0: Str, live0: set<Region>, mem: Str, live: set<Region>, items: seq<Item>,
                         bases: seq<nat>, fields: seq<FieldPtrs>)
  {
    && |fields| == |bases| <= |items|
    && Kept(mem0, mem, live0)
    && live == live0 + FieldRegions(items, bases) && FieldRegions(items, bases) !! live0
    && Stored(mem, live, items, bases)
    && Listed(items, bases, fields)
  }

  /** The pointers recorded so far are those of the blobs. */
  ghost predicate Listed(items: seq<Item>, bases: seq<nat>, fields: seq<FieldPtrs>) {
    && |fields| == |bases| <= |items|
    && forall i | 0 <= i < |fields| ::
         bases[i] + |Blob(items[i])| < U32_LIMIT && fields[i] == FieldsAt(bases[i], items[i])
  }

  lemma ListedAdd(items: seq<Item>, bases: seq<nat>, fields: seq<FieldPtrs>, base: nat)
    requires Listed(items, bases, fields) && |bases| < |items| && base + |Blob(items[|bases|])| < U32_LIMIT
    ensures Listed(items, bases + [base], fields + [FieldsAt(base, items[|bases|])])
  {
    var moreBases, moreFields := bases + [base], fields + [FieldsAt(base, items[|bases|])];
    forall i | 0 <= i < |moreFields|
      ensures moreBases[i] + |Blob(items[i])| < U32_LIMIT && moreFields[i] == FieldsAt(moreBases[i], items[i])
    {
      if i < |fields| {
        assert moreBases[i] == bases[i] && moreFields[i] == fields[i];
      }
    }
  }

  lemma PlacedStep(mem0: Str, live0: set<Region>, mem: Str, live: set<Region>, items: seq<Item>, bases: seq<nat>,
                   fields: seq<FieldPtrs>, mem': Str, base: nat)
    requires Placed(mem0, live0, mem, live, items, bases, fields) && |bases| < |items| && |mem'| < U32_LIMIT
    requires Kept(mem, mem', live) && Holds(mem', base, items[|bases|]) && FieldRegion(base, items[|bases|]) !in live
    ensures
      var e := items[|bases|];
      Placed(mem0, live0, mem', live + {FieldRegion(base, e)}, items, bases + [base], fields + [FieldsAt(base, e)])
  {
    var e := items[|bases|];
    FieldRegionsAdd(items, bases, base);
    KeptTrans(mem0, mem, mem', live0, live);
    StoredKept(mem, mem', live, live + {FieldRegion(base, e)}, items, bases);
    StoredAdd(mem', live + {FieldRegion(base, e)}, items, bases, base);
    ListedAdd(items, bases, fields, base);
  }

  lemma StoredAdd(mem: Str, live: set<Region>, items: seq<Item>, bases: seq<nat>, base: nat)
    requires Stored(mem, live, items, bases) && |bases| < |items|
    requires Holds(mem, base, items[|bases|]) && FieldRegion(base, items[|bases|]) in live
    ensures Stored(mem, live, items, bases + [base])
  {
    var more := bases + [base];
    forall i | 0 <= i < |more| ensures Holds(mem, more[i], items[i]) && FieldRegion(more[i], items[i]) in live {
      if i < |bases| {
        assert more[i] == bases[i];
      }
    }
  }

  /** The first loop of EncodedEntries::write. */
  method WriteAllFields(g: Guest, items: seq<Item>) returns (r: Option<seq<FieldPtrs>>, ghost bases: seq<nat>)
    requires g.Valid()
    modifies g
    ensures g.Valid() && old(g.calls) <= g.calls <= old(g.calls) + |items|
    ensures r.Some? ==> |r.value| == |items|
    ensures g.honest && r.None? ==>
      !g.Sound(old(g.calls)) || |old(g.mem)| + FieldsCost(g.slack, items) > MAX_GUEST_MEMORY
    ensures g.honest && r.Some? ==> |g.mem| <= |old(g.mem)| + FieldsCost(g.slack, items)
    ensures g.honest && r.Some? ==> Placed(old(g.mem), old(g.live), g.mem, g.live, items, bases, r.value)
  {
    bases := [];
    var fields: seq<FieldPtrs> := [];
    if g.honest {
      assert FieldRegions(items, bases) == {};
      assert Kept(g.mem, g.mem, g.live);
    }
    for n := 0 to |items|
      invariant g.Valid() && old(g.calls) <= g.calls <= old(g.calls) + n
      invariant g.honest ==> |g.mem| <= |old(g.mem)| + FieldsCost(g.slack, items[..n])
      invariant |fields| == |bases| == n
      invariant g.honest ==> Placed(old(g.mem), old(g.live), g.mem, g.live, items, bases, fields)
    {
      ghost var mem, live := g.mem, g.live;
      ghost var base;
      var f;
      FieldsCostPrefix(g.slack, items, n);
      f, base := WriteFields(g, items[n]);
      if f.None? {
        return None, bases;
      }
      if g.honest {
        PlacedStep(old(g.mem), old(g.live), mem, live, items, bases, fields, g.mem, base);
      }
      fields := fields + [f.value];
      bases := bases + [base];
    }
    assert items[..|items|] == items;
    r := Some(fields);
  }

  // ---------------------------------------------------------------- the entry array

  /** Copying bytes into a scratch buffer. */
  method PutBytes(out: array<Byte>, at: nat, data: Str)
    requires at + |data| <= out.Length
    modifies out
    ensures out[..] == Splice(old(out[..]), at, data)
  {
    for i := 0 to |data|
      invariant out[..] == Splice(old(out[..]), at, data[..i])
    {
      PutOne(old(out[..]), at, data, i);
      out[at + i] := data[i];
    }
    assert data[..|data|] == data;
  }

  lemma PutOne(before: Str, at: nat, data: Str, i: nat)
    requires at + |data| <= |before| && i < |data|
    ensures Splice(before, at, data[..i])[at + i := data[i]] == Splice(before, at, data[..i + 1])
  {
    assert data[..i + 1] == data[..i] + [data[i]];
  }

  /** encode_entry: the scratch buffer ends up holding exactly the record. */
  method EncodeEntry(e: Item, f: FieldPtrs, out: array<Byte>)
    requires out.Length == ENTRY_SIZE
    modifies out
    ensures out[..] == Record(e, f)
  {
    var words := Words(e, f);
    for i := 0 to 10
      invariant out[..4 * i] == Pack(words[..i])
    {
      ghost var before := out[..];
      PutBytes(out, 4 * i, LE32(words[i]));
      SpliceExtends(before, 0, Pack(words[..i]), LE32(words[i]));
      assert words[..i + 1][..i] == words[..i];
      assert out[..4 * (i + 1)] == out[..][0..4 * (i + 1)];
    }
    assert words[..10] == words;
    ghost var before := out[..];
    PutBytes(out, 40, LE64(Unsigned(TimeWord(e.t))));
    SpliceExtends(before, 0, Pack(words), LE64(Unsigned(TimeWord(e.t))));
    assert out[..] == out[..][0..48];
  }

  /** Rows of one record each, end to end. */
  function Flat(rows: seq<Str>): (s: Str)
    requires forall i | 0 <= i < |rows| :: |rows[i]| == ENTRY_SIZE
    ensures |s| == ENTRY_SIZE * |rows|
  {
    if rows == [] then [] else Flat(rows[..|rows| - 1]) + rows[|rows| - 1]
  }

  lemma {:induction false} RowIn(rows: seq<Str>, i: nat)
    requires i < |rows| && forall j | 0 <= j < |rows| :: |rows[j]| == ENTRY_SIZE
    ensures Flat(rows)[ENTRY_SIZE * i..ENTRY_SIZE * (i + 1)] == rows[i]
  {
    var init := rows[..|rows| - 1];
    if i < |init| {
      RowIn(init, i);
      assert Flat(rows)[ENTRY_SIZE * i..ENTRY_SIZE * (i + 1)] == Flat(init)[ENTRY_SIZE * i..ENTRY_SIZE * (i + 1)];
    }
  }

  lemma FlatAdd(rows: seq<Str>, row: Str)
    requires |row| == ENTRY_SIZE && forall j | 0 <= j < |rows| :: |rows[j]| == ENTRY_SIZE
    ensures Flat(rows + [row]) == Flat(rows) + row
  {
    assert (rows + [row])[..|rows|] == rows;
  }

  ghost predicate AreRecords(rows: seq<Str>, items: seq<Item>, fields: seq<FieldPtrs>) {
    && |rows| <= |items| && |rows| <= |fields|
    && forall i | 0 <= i < |rows| :: rows[i] == Record(items[i], fields[i])
  }

  lemma RecordsAdd(rows: seq<Str>, items: seq<Item>, fields: seq<FieldPtrs>)
    requires AreRecords(rows, items, fields) && |rows| < |items| == |fields|
    ensures AreRecords(rows + [Record(items[|rows|], fields[|rows|])], items, fields)
  {
  }

  /** The rows are in memory from `ptr` on. */
  ghost predicate ArrayHolds(mem: Str, ptr: nat, rows: seq<Str>) {
    && (forall i | 0 <= i < |rows| :: |rows[i]| == ENTRY_SIZE)
    && ptr + ENTRY_SIZE * |rows| <= |mem| && mem[ptr..ptr + ENTRY_SIZE * |rows|] == Flat(rows)
  }

  /** One record into its slot behind the others. */
  method AppendRecord(g: Guest, ptr: u32, row: Str, ghost r: Region, ghost rows: seq<Str>, n: nat) returns (ok: bool)
    requires g.Valid() && |row| == ENTRY_SIZE && ptr + ENTRY_SIZE * n < U32_LIMIT
    requires g.honest ==>
      |rows| == n && r in g.live && r.ptr == ptr && ENTRY_SIZE * (n + 1) <= r.size && ArrayHolds(g.mem, ptr, rows)
    modifies g`mem
    ensures g.Valid() && |g.mem| == |old(g.mem)|
    ensures ok ==> ptr + ENTRY_SIZE * (n + 1) <= |g.mem|
    ensures g.honest ==> ok && Kept(old(g.mem), g.mem, g.live - {r}) && ArrayHolds(g.mem, ptr, rows + [row])
  {
    if g.honest {
      FlatAdd(rows, row);
      ok := AppendField(g, ptr, ENTRY_SIZE * n, row, r, Flat(rows));
    } else {
      ok := AppendField(g, ptr, ENTRY_SIZE * n, row, r, []);
    }
  }

  /** One turn of that loop: encode into the scratch buffer, then write it out. */
  method WriteRecord(g: Guest, ptr: u32, e: Item, f: FieldPtrs, scratch: array<Byte>,
                     ghost r: Region, ghost rows: seq<Str>, n: nat, ghost start: Str) returns (ok: bool)
    requires g.Valid() && scratch.Length == ENTRY_SIZE && ptr + ENTRY_SIZE * n < U32_LIMIT
    requires g.honest ==> r in g.live && r.ptr == ptr && ENTRY_SIZE * (n + 1) <= r.size
    requires g.honest ==> |rows| == n && ArrayHolds(g.mem, ptr, rows) && Kept(start, g.mem, g.live - {r})
    modifies g`mem, scratch
    ensures g.Valid() && |g.mem| == |old(g.mem)|
    ensures ok ==> ptr + ENTRY_SIZE * (n + 1) <= |g.mem|
    ensures g.honest ==> ok && Kept(start, g.mem, g.live - {r}) && ArrayHolds(g.mem, ptr, rows + [Record(e, f)])
  {
    EncodeEntry(e, f, scratch);
    ghost var before := g.mem;
    ok := AppendRecord(g, ptr, scratch[..], r, rows, n);
    if g.honest {
      KeptTrans(start, before, g.mem, g.live - {r}, g.live - {r});
    }
  }

  /** The second loop of EncodedEntries::write, through one scratch buffer. */
  method WriteRecords(g: Guest, ptr: u32, items: seq<Item>, fields: seq<FieldPtrs>, ghost r: Region)
    returns (ok: bool, ghost rows: seq<Str>)
    requires g.Valid() && |fields| == |items|
    requires g.honest ==> r in g.live && r.ptr == ptr && ENTRY_SIZE * |items| <= r.size
    modifies g`mem
    ensures g.Valid()
    ensures |g.mem| == |old(g.mem)|
    ensures g.honest ==> ok && Kept(old(g.mem), g.mem, g.live - {r})
    ensures g.honest ==> |rows| == |items| && AreRecords(rows, items, fields) && ArrayHolds(g.mem, ptr, rows)
  {
    var scratch := new Byte[ENTRY_SIZE];
    rows := [];
    assert g.honest ==> Inside(r, g.mem);
    for n := 0 to |items|
      invariant g.Valid() && |g.mem| == |old(g.mem)| && (n > 0 ==> ptr + ENTRY_SIZE * n <= |g.mem|)
      invariant |rows| == n && AreRecords(rows, items, fields)
      invariant g.honest ==> Kept(old(g.mem), g.mem, g.live - {r}) && ArrayHolds(g.mem, ptr, rows)
    {
      var fits := WriteRecord(g, ptr, items[n], fields[n], scratch, r, rows, n, old(g.mem));
      if !fits {
        return false, rows;
      }
      RecordsAdd(rows, items, fields);
      rows := rows + [Record(items[n], fields[n])];
    }
    ok := true;
  }

  /** The `i`-th record of the array at `ptr`. */
  function RecordAt(mem: Str, ptr: nat, i: nat): (s: Str)
    requires ptr + ENTRY_SIZE * (i + 1) <= |mem|
    ensures |s| == ENTRY_SIZE
  {
    mem[ptr + ENTRY_SIZE * i..ptr + ENTRY_SIZE * (i + 1)]
  }

  /** What the host hands the guest: `items` laid out at `ptr`, their fields at `bases`. */
  ghost predicate Encoded(mem: Str, ptr: nat, items: seq<Item>, bases: seq<nat>) {
    && |bases| == |items| && 0 < ptr && ptr + ENTRY_SIZE * |items| <= |mem| < U32_LIMIT
    && forall i | 0 <= i < |items| ::
         && Holds(mem, bases[i], items[i])
         && RecordAt(mem, ptr, i) == Record(items[i], FieldsAt(bases[i], items[i]))
  }

  lemma EncodedFrom(mem: Str, live: set<Region>, ptr: nat, items: seq<Item>, bases: seq<nat>, fields: seq<FieldPtrs>,
                    rows: seq<Str>)
    requires Stored(mem, live, items, bases) && |bases| == |items| == |fields| == |rows| && |mem| < U32_LIMIT && 0 < ptr
    requires Listed(items, bases, fields)
    requires AreRecords(rows, items, fields) && ArrayHolds(mem, ptr, rows)
    ensures Encoded(mem, ptr, items, bases)
  {
    forall i | 0 <= i < |items| ensures RecordAt(mem, ptr, i) == Record(items[i], FieldsAt(bases[i], items[i])) {
      RowAt(mem, ptr, rows, i);
    }
  }

  lemma RowAt(mem: Str, ptr: nat, rows: seq<Str>, i: nat)
    requires ArrayHolds(mem, ptr, rows) && i < |rows|
    ensures RecordAt(mem, ptr, i) == rows[i]
  {
    RowIn(rows, i);
    SliceOf(mem, ptr, Flat(rows), ENTRY_SIZE * i, rows[i]);
  }

  datatype EncodedEntries = EncodedEntries(ptr: u32, count: u32, totalSize: u32)

  /** The block of the entry array: never empty, aligned for the i64. */
  function ArrayRegion(ptr: nat, n: nat): Region {
    Region(ptr, AtLeastOne(ENTRY_SIZE * n), 8)
  }

  /** What the entries and their array take of the guest's memory, at most. */
  function EntriesCost(slack: nat, items: seq<Item>): nat {
    FieldsCost(slack, items) + Request(ENTRY_SIZE * |items|, 8) + slack
  }

  /**
    EncodedEntries::write. With an honest guest the memory then holds the
    entries, and the live blocks are those from before, one per entry for its
    fields, and the array.
   */
  method WriteEntries(g: Guest, items: seq<Item>) returns (r: Option<EncodedEntries>, ghost bases: seq<nat>)
    requires g.Valid()
    modifies g
    ensures g.Valid() && old(g.calls) <= g.calls <= old(g.calls) + |items| + 1
    ensures r.Some? ==> r.value.count == |items| && r.value.totalSize == AtLeastOne(ENTRY_SIZE * |items|)
    ensures g.honest && r.None? ==>
      !g.Sound(old(g.calls)) || |old(g.mem)| + EntriesCost(g.slack, items) > MAX_GUEST_MEMORY
    ensures g.honest && r.Some? ==> |g.mem| <= |old(g.mem)| + EntriesCost(g.slack, items)
    ensures g.honest && r.Some? ==>
      && Encoded(g.mem, r.value.ptr, items, bases)
      && FieldRegions(items, bases) !! old(g.live)
      && ArrayRegion(r.value.ptr, |items|) !in old(g.live) + FieldRegions(items, bases)
      && g.live == old(g.live) + FieldRegions(items, bases) + {ArrayRegion(r.value.ptr, |items|)}
      && Kept(old(g.mem), g.mem, old(g.live))
  {
    bases := [];
    if |items| >= U32_LIMIT {
      return None, bases;
    }
    var fields;
    fields, bases := WriteAllFields(g, items);
    if fields.None? {
      return None, bases;
    }
    if ENTRY_SIZE * |items| >= U32_LIMIT {
      return None, bases;
    }
    ghost var mem1, live1 := g.mem, g.live;
    var size: u32 := AtLeastOne(ENTRY_SIZE * |items|);
    var a := g.Alloc(size, 8);
    if a.None? || a.value == 0 {
      return None, bases;
    }
    ghost var mem2, region := g.mem, ArrayRegion(a.value, |items|);
    assert g.honest ==> g.live - {region} == live1;
    ghost var rows;
    var ok;
    ok, rows := WriteRecords(g, a.value, items, fields.value, region);
    if !ok {
      return None, bases;
    }
    if g.honest {
      ArrayWritten(old(g.mem), old(g.live), mem1, live1, mem2, g.mem, a.value, items, bases, fields.value, rows);
    }
    r := Some(EncodedEntries(a.value, |items|, size));
  }

  lemma ArrayWritten(mem0: Str, live0: set<Region>, mem1: Str, live1: set<Region>, mem2: Str, mem: Str,
                     ptr: nat, items: seq<Item>, bases: seq<nat>, fields: seq<FieldPtrs>, rows: seq<Str>)
    requires Placed(mem0, live0, mem1, live1, items, bases, fields) && |fields| == |items| && |mem| < U32_LIMIT
    requires Kept(mem1, mem2, live1) && Kept(mem2, mem, live1)
    requires 0 < ptr && |rows| == |items| && AreRecords(rows, items, fields) && ArrayHolds(mem, ptr, rows)
    ensures Encoded(mem, ptr, items, bases) && Kept(mem0, mem, live0)
  {
    KeptTrans(mem1, mem2, mem, live1, live1);
    KeptTrans(mem0, mem1, mem, live0, live1);
    StoredKept(mem1, mem, live1, live1, items, bases);
    EncodedFrom(mem, live1, ptr, items, bases, fields, rows);
  }

  // ---------------------------------------------------------------- the guest's side

  /** What the guest makes of the first `n` records at `ptr`. */
  function Decoded(mem: Str, ptr: nat, n: nat): (v: seq<Item>)
    requires ptr + ENTRY_SIZE * n <= |mem|
    ensures |v| == n
  {
    seq(n, i requires 0 <= i < n => EntryAt(mem, RecordAt(mem, ptr, i)))
  }

  /** One turn of the loop of decode_entries. */
  method DecodeEntry(mem: Str, ptr: u32, count: u32, i: nat) returns (item: Item)
    requires ptr + ENTRY_SIZE * count <= |mem| && i < count
    ensures item == Decoded(mem, ptr, count)[i]
  {
    item := EntryAt(mem, RecordAt(mem, ptr, i));
  }

  /** decode_entries. */
  method DecodeEntries(mem: Str, ptr: u32, count: u32) returns (v: seq<Item>)
    requires ptr + ENTRY_SIZE * count <= |mem|
    ensures v == Decoded(mem, ptr, count)
  {
    v := [];
    ghost var all := Decoded(mem, ptr, count);
    for i := 0 to count
      invariant |v| == i && v <= all
    {
      var item := DecodeEntry(mem, ptr, count, i);
      PrefixGrows(v, all);
      v := v + [item];
    }
  }

  lemma PrefixGrows<T>(v: seq<T>, all: seq<T>)
    requires v <= all && |v| < |all|
    ensures v + [all[|v|]] <= all
  {
  }

  /** The guest reads back exactly the entries the host wrote. */
  lemma DecodesToItems(mem: Str, ptr: nat, items: seq<Item>, bases: seq<nat>)
    requires Encoded(mem, ptr, items, bases) && PoolsAreText(items)
    ensures Decoded(mem, ptr, |items|) == items
  {
    var v := Decoded(mem, ptr, |items|);
    forall i | 0 <= i < |items| ensures v[i] == items[i] {
      DecodesToItem(mem, ptr, items, bases, i);
    }
  }

  lemma DecodesToItem(mem: Str, ptr: nat, items: seq<Item>, bases: seq<nat>, i: nat)
    requires Encoded(mem, ptr, items, bases) && PoolsAreText(items) && i < |items|
    ensures EntryAt(mem, RecordAt(mem, ptr, i)) == items[i]
  {
    EntryRoundTrip(mem, bases[i], items[i]);
  }

  /** The result word: a tag in the low byte, an index or a pointer in the upper half. */
  function ResultWord(tag: nat, upper: u32): u64
    requires tag < 256
  {
    upper * U32_LIMIT + tag
  }

  lemma ResultWordParts(tag: nat, upper: u32)
    requires tag < 256
    ensures ResultWord(tag, upper) % 256 == tag && ResultWord(tag, upper) / U32_LIMIT == upper
  {
    LowPart(256, upper * 0x100_0000, tag);
    LowPart(U32_LIMIT, upper, tag);
  }

  lemma LowPart(n: nat, k: nat, low: nat)
    requires low < n
    ensures (n * k + low) % n == low && (n * k + low) / n == k
  {
    var x := n * k + low;
    var d := x / n;
    assert x == n * d + x % n;
    assert n * (k - d) == x % n - low && n * (d - k) == low - x % n;
    if d < k {
      AtLeastOnce(n, k - d);
    } else if d > k {
      AtLeastOnce(n, d - k);
    }
  }

  /** The blocks that travel with a result: a synthesized reply's bytes, and the descriptor pointing at them. */
  function ResultRegions(r: MergeResult, payload: nat, desc: nat): set<Region> {
    if r.Synthesized? then {Block(payload, |r.bytes|, 1), Block(desc, 8, 4)} else {}
  }

  /** `packed` stands for `r` in this memory. */
  ghost predicate Carries(mem: Str, packed: u64, r: GuestResult, payload: nat, desc: nat) {
    match r
    case MergeMiss => packed == 0
    case Winner(i) => packed == ResultWord(1, i)
    case Synthesized(bytes) =>
      && 0 < payload < U32_LIMIT && payload + |bytes| <= |mem| && mem[payload..payload + |bytes|] == bytes
      && 0 < desc < U32_LIMIT && desc + 8 <= |mem| && mem[desc..desc + 8] == LE32(payload) + LE32(|bytes|)
      && packed == ResultWord(2, desc)
  }

  /** An allocation with `data` copied to its front. */
  method AllocWith(g: Guest, size: nat, align: nat, data: Str) returns (r: Option<u32>)
    requires g.Valid() && g.honest && |data| <= size
    modifies g
    ensures g.Valid() && old(g.calls) <= g.calls <= old(g.calls) + 1
    ensures r.None? ==> !g.Sound(old(g.calls)) || |old(g.mem)| + Request(size, align) > MAX_GUEST_MEMORY
    ensures |g.mem| <= |old(g.mem)| + Request(size, align) + g.slack
    ensures r.Some? ==>
      var b := Block(r.value, size, align);
      && b !in old(g.live) && g.live == old(g.live) + {b} && Kept(old(g.mem), g.mem, old(g.live))
      && Inside(b, g.mem) && g.mem[r.value..r.value + |data|] == data
  {
    r := g.Alloc(size, align);
    if r.None? {
      return;
    }
    ghost var mid, b := g.mem, Block(r.value, size, align);
    assert g.live - {b} == old(g.live);
    AppendInside(g.mem, g.live, b, [], data);
    var ok := g.Write(r.value, data);
    assert [] + data == data;
    KeptTrans(old(g.mem), mid, g.mem, old(g.live), old(g.live));
  }

  /** What a result takes of the guest's memory, at most. */
  function ResultCost(slack: nat, r: MergeResult): nat {
    if r.Synthesized? then Request(|r.bytes|, 1) + slack + Request(8, 4) + slack else 0
  }

  /** encode_synthesized. */
  method EncodeSynthesized(g: Guest, bytes: Str) returns (packed: Option<u64>, ghost payload: nat, ghost desc: nat)
    requires g.Valid() && g.honest && |bytes| <= MAX_GUEST_MEMORY
    modifies g
    ensures g.Valid() && old(g.calls) <= g.calls <= old(g.calls) + 2
    ensures packed.None? ==>
      !g.Sound(old(g.calls)) || |old(g.mem)| + ResultCost(g.slack, Synthesized(bytes)) > MAX_GUEST_MEMORY
    ensures packed.Some? ==>
      && Carries(g.mem, packed.value, Synthesized(bytes), payload, desc) && Kept(old(g.mem), g.mem, old(g.live))
      && Handed(old(g.live), g.live, Synthesized(bytes), payload, desc)
  {
    payload, desc := 0, 0;
    var p := AllocWith(g, |bytes|, 1, bytes);
    if p.None? {
      return None, 0, 0;
    }
    payload := p.value;
    ghost var mid, live1 := g.mem, g.live;
    var d := AllocWith(g, 8, 4, LE32(p.value) + LE32(|bytes|));
    if d.None? {
      return None, payload, 0;
    }
    desc := d.value;
    KeptTrans(old(g.mem), mid, g.mem, old(g.live), live1);
    PrefixKept(mid, g.mem, live1, Block(payload, |bytes|, 1), bytes);
    packed := Some(ResultWord(2, d.value));
  }

  lemma PrefixKept(before: Str, after: Str, live: set<Region>, r: Region, data: Str)
    requires Kept(before, after, live) && r in live && |data| <= r.size
    requires before[r.ptr..r.ptr + |data|] == data
    ensures r.ptr + |data| <= |after| && after[r.ptr..r.ptr + |data|] == data
  {
    assert before[r.ptr..r.ptr + |data|] == Content(before, r)[..|data|];
    assert after[r.ptr..r.ptr + |data|] == Content(after, r)[..|data|];
  }

  /** Between two states of the allocator, exactly the blocks of the result were handed out. */
  ghost predicate Handed(before: set<Region>, after: set<Region>, r: MergeResult, payload: nat, desc: nat) {
    && after == before + ResultRegions(r, payload, desc) && ResultRegions(r, payload, desc) !! before
    && (r.Synthesized? ==> Block(payload, |r.bytes|, 1) != Block(desc, 8, 4))
  }

  /** encode_result. */
  method EncodeResult(g: Guest, r: GuestResult) returns (packed: Option<u64>, ghost payload: nat, ghost desc: nat)
    requires g.Valid() && g.honest
    modifies g
    ensures g.Valid() && old(g.calls) <= g.calls <= old(g.calls) + 2
    ensures packed.None? ==> !g.Sound(old(g.calls)) || |old(g.mem)| + ResultCost(g.slack, r) > MAX_GUEST_MEMORY
    ensures packed.Some? ==>
      && Carries(g.mem, packed.value, r, payload, desc) && Kept(old(g.mem), g.mem, old(g.live))
      && Handed(old(g.live), g.live, r, payload, desc)
  {
    payload, desc := 0, 0;
    match r {
      case MergeMiss =>
        packed := Some(0);
      case Winner(i) =>
        packed := Some(ResultWord(1, i));
      case Synthesized(bytes) =>
        packed, payload, desc := EncodeSynthesized(g, bytes);
    }
  }

  /**
    The exported mcgw_merge. An honest guest decodes the entries, applies its
    function and encodes the result; any other guest does what it likes.
   */
  method CallMerge(g: Guest, ptr: u32, count: u32) returns (packed: Option<u64>, ghost payload: nat, ghost desc: nat)
    requires g.Valid()
    requires g.honest ==> ptr + ENTRY_SIZE * count <= |g.mem|
    modifies g
    ensures g.Valid() && old(g.calls) <= g.calls <= old(g.calls) + 3
    ensures g.honest && packed.None? ==>
      || !g.Sound(old(g.calls))
      || |old(g.mem)| + ResultCost(g.slack, g.user(Decoded(old(g.mem), ptr, count))) > MAX_GUEST_MEMORY
    ensures g.honest && packed.Some? ==>
      var r := g.user(Decoded(old(g.mem), ptr, count));
      && Carries(g.mem, packed.value, r, payload, desc) && Kept(old(g.mem), g.mem, old(g.live))
      && Handed(old(g.live), g.live, r, payload, desc)
  {
    payload, desc := 0, 0;
    var trap := g.traps(g.calls);
    g.calls := g.calls + 1;
    if g.honest {
      if trap {
        return None, 0, 0;
      }
      var items := DecodeEntries(g.mem, ptr, count);
      packed, payload, desc := EncodeResult(g, g.user(items));
      return;
    }
    var m: Str := *;
    if |m| <= MAX_GUEST_MEMORY {
      g.mem := m;
    }
    var n: int := *;
    packed := if trap then None else Some(if 0 <= n < U64_LIMIT then n else 0);
  }

  // ---------------------------------------------------------------- the host's side of the result

  /** What a call comes to: a result, an error code the guest chose, or any other failure. */
  datatype Ran = Done(result: MergeResult) | GuestFailed(code: nat) | Failed

  /** A result the rest of the gateway can use: no index past the entries, no reply longer than the guest's memory. */
  predicate InRange(r: MergeResult, n: nat) {
    && (r.Winner? ==> r.index < n)
    && (r.Synthesized? ==> |r.bytes| <= MAX_GUEST_MEMORY)
  }

  /** A copy into a buffer of the host's own, which is never larger than a guest's memory can be. */
  method CopyOut(g: Guest, at: u32, len: u32) returns (r: Option<Str>)
    requires len <= MAX_GUEST_MEMORY
    ensures r.Some? <==> at + len <= |g.mem|
    ensures r.Some? ==> r.value == g.mem[at..at + len]
  {
    r := g.Read(at, len);
  }

  /** The synthesized branch of decode_result: the bytes are copied out, then both blocks are freed. */
  method DecodeSynthesized(g: Guest, descPtr: u32, ghost r: GuestResult, ghost payload: nat) returns (ran: Ran)
    requires g.Valid()
    requires g.honest ==>
      && r.Synthesized? && Carries(g.mem, ResultWord(2, descPtr), r, payload, descPtr)
      && ResultRegions(r, payload, descPtr) <= g.live && Block(payload, |r.bytes|, 1) != Block(descPtr, 8, 4)
    modifies g
    ensures g.Valid() && old(g.calls) <= g.calls <= old(g.calls) + 2
    ensures ran.Done? ==> ran.result.Synthesized? && InRange(ran.result, 0)
    ensures g.honest && ran.Done? ==>
      ran.result == r && g.live == old(g.live) - ResultRegions(r, payload, descPtr) && Kept(old(g.mem), g.mem, g.live)
    ensures g.honest && !ran.Done? ==> !g.Sound(old(g.calls))
  {
    var desc := g.Read(descPtr, 8);
    if desc.None? {
      return Failed;
    }
    if g.honest {
      DescriptorReads(desc.value, payload, |r.bytes|);
    }
    var ptr, len := FromLE32(desc.value[0..4]), FromLE32(desc.value[4..8]);
    if len > MAX_GUEST_MEMORY {
      return Failed;
    }
    var bytes := CopyOut(g, ptr, len);
    if bytes.None? {
      return Failed;
    }
    var ok := g.Dealloc(ptr, AtLeastOne(len), 1);
    if !ok {
      return Failed;
    }
    ghost var mid, live1 := g.mem, g.live;
    ok := g.Dealloc(descPtr, 8, 4);
    if !ok {
      return Failed;
    }
    if g.honest {
      assert g.live == old(g.live) - ResultRegions(r, payload, descPtr);
      KeptTrans(old(g.mem), mid, g.mem, g.live, g.live);
    }
    ran := Done(Synthesized(bytes.value));
  }

  lemma DescriptorReads(desc: Str, ptr: u32, len: u32)
    requires desc == LE32(ptr) + LE32(len)
    ensures FromLE32(desc[0..4]) == ptr && FromLE32(desc[4..8]) == len
  {
    assert desc[0..4] == LE32(ptr) && desc[4..8] == LE32(len);
  }

  /**
    decode_result. From an honest guest the host recovers exactly the result and
    gives back exactly the blocks that came with it; from any guest it accepts no
    reply longer than the guest's memory.
   */
  method DecodeResult(g: Guest, packed: u64, ghost r: GuestResult, ghost payload: nat, ghost desc: nat)
    returns (ran: Ran)
    requires g.Valid()
    requires g.honest ==>
      && Carries(g.mem, packed, r, payload, desc) && ResultRegions(r, payload, desc) <= g.live
      && (r.Synthesized? ==> Block(payload, |r.bytes|, 1) != Block(desc, 8, 4))
    modifies g
    ensures g.Valid() && old(g.calls) <= g.calls <= old(g.calls) + 2
    ensures ran.Done? ==> InRange(ran.result, U32_LIMIT)
    ensures packed % 256 == 0xFF ==> ran == GuestFailed(packed / 256 % 256)
    ensures packed % 256 !in {0, 1, 2, 0xFF} ==> ran == Failed
    ensures g.honest && ran.Done? ==>
      ran.result == r && g.live == old(g.live) - ResultRegions(r, payload, desc) && Kept(old(g.mem), g.mem, g.live)
    ensures g.honest && !ran.Done? ==> !g.Sound(old(g.calls))
  {
    if g.honest {
      TagOf(g.mem, packed, r, payload, desc);
    }
    var tag := packed % 256;
    var upper: u32 := packed / U32_LIMIT;
    if tag == 0 {
      ran := Done(MergeMiss);
    } else if tag == 1 {
      ran := Done(Winner(upper));
    } else if tag == 2 {
      ran := DecodeSynthesized(g, upper, r, payload);
    } else if tag == 0xFF {
      ran := GuestFailed(packed / 256 % 256);
    } else {
      ran := Failed;
    }
  }

  lemma TagOf(mem: Str, packed: u64, r: GuestResult, payload: nat, desc: nat)
    requires Carries(mem, packed, r, payload, desc)
    ensures r.MergeMiss? <==> packed % 256 == 0
    ensures r.Winner? <==> packed % 256 == 1
    ensures r.Synthesized? <==> packed % 256 == 2
    ensures r.Winner? ==> packed / U32_LIMIT == r.index
    ensures r.Synthesized? ==> packed / U32_LIMIT == desc
  {
    match r {
      case MergeMiss =>
      case Winner(i) => ResultWordParts(1, i);
      case Synthesized(bytes) => ResultWordParts(2, desc);
    }
  }

  // ---------------------------------------------------------------- the whole call

  /** What a whole call takes of the guest's memory, at most. */
  function Need(slack: nat, items: seq<Item>, r: MergeResult): nat {
    EntriesCost(slack, items) + ResultCost(slack, r)
  }

  /**
    run_with_pre. With an honest guest, a call that comes to a result gives what
    the guest's function makes of the entries, and every block handed out on the
    way has been freed with its own layout except the entries' fields. It does
    come to that result if none of the calls made traps, the memory has room
    for what the call needs, and the function names an entry that is there. The
    calls are at most one per entry and seven: for the array, the merge with the
    two blocks of its result, and three frees.
   */
  method Run(g: Guest, items: seq<Item>) returns (ran: Ran, ghost bases: seq<nat>)
    requires g.Valid() && PoolsAreText(items)
    modifies g
    ensures g.Valid() && old(g.calls) <= g.calls <= old(g.calls) + |items| + 7
    ensures ran.Done? ==> InRange(ran.result, |items|)
    ensures g.honest && ran.Done? ==>
      && ran.result == g.user(items)
      && |bases| == |items| && g.live == old(g.live) + FieldRegions(items, bases)
      && Kept(old(g.mem), g.mem, old(g.live))
    ensures
      && g.honest && g.Sound(old(g.calls)) && InRange(g.user(items), |items|)
      && |old(g.mem)| + Need(g.slack, items, g.user(items)) <= MAX_GUEST_MEMORY
      ==> ran == Done(g.user(items))
  {
    ran := Failed;
    var encoded;
    encoded, bases := WriteEntries(g, items);
    if encoded.None? {
      return;
    }
    ghost var payload, desc;
    var packed;
    ghost var mem1, live1 := g.mem, g.live;
    if g.honest {
      DecodesToItems(g.mem, encoded.value.ptr, items, bases);
    }
    packed, payload, desc := CallMerge(g, encoded.value.ptr, encoded.value.count);
    if packed.None? {
      return;
    }
    ghost var mem2 := g.mem;
    var decoded := DecodeResult(g, packed.value, g.user(items), payload, desc);
    if !decoded.Done? {
      return decoded, bases;
    }
    ghost var mem3 := g.mem;
    assert g.honest ==> g.live == live1;
    var ok := g.Dealloc(encoded.value.ptr, encoded.value.totalSize, 8);
    if !ok {
      return;
    }
    if g.honest {
      KeptTrans(old(g.mem), mem1, mem2, old(g.live), live1);
      KeptTrans(old(g.mem), mem2, mem3, old(g.live), live1);
      KeptTrans(old(g.mem), mem3, g.mem, old(g.live), g.live);
    }
    if decoded.result.Winner? && decoded.result.index >= |items| {
      return;
    }
    ran := decoded;
  }

  /**
    WasmMerge::apply, on an instance of its own that starts from the module's
    image; `calls` is how many calls into the guest it made. Whatever the guest
    does, the gateway gets a result it can use. From an honest guest it gets what
    the function returned or a miss, and it does get the former if no call
    trapped, the memory sufficed and the function named an entry that is there.
   */
  method Apply(honest: bool, user: seq<Item> -> GuestResult, traps: nat -> bool, slack: nat, image: Str,
               items: seq<Item>)
    returns (r: MergeResult, calls: nat)
    requires PoolsAreText(items) && |image| <= MAX_GUEST_MEMORY
    ensures InRange(r, |items|) && calls <= |items| + 7
    ensures honest ==> r == MergeMiss || r == user(items)
    ensures
      && honest && (forall n | 0 <= n < calls :: !traps(n)) && InRange(user(items), |items|)
      && |image| + Need(slack, items, user(items)) <= MAX_GUEST_MEMORY
      ==> r == user(items)
  {
    var g := new Guest(honest, user, traps, slack, image);
    var ran, bases := Run(g, items);
    calls := g.calls;
    r := if ran.Done? then ran.result else MergeMiss;
  }
}
