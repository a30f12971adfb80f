/**
  Reading and writing through several pools: the built-in merges
  (rust/crates/mcgateway-core/src/builtins.rs), the reply the Lua read handler
  picks (lua/mcgateway/routes.lua), the outcome the native side
  records for it (read_outcome in rust/crates/mcgateway-clib/src/lib.rs), and the
  reduction of write responses.
 */
module Replies {
  import opened Text
  import opened Entries

  datatype MergeResult = Winner(index: nat) | Synthesized(bytes: Str) | MergeMiss

  /** What the client gets: a pool's response as it is, fresh bytes framed as a hit, `EN`, or the all-failed error. */
  datatype Reply = FromPool(index: nat) | Fresh(bytes: Str) | MissReply | AllFailed

  ghost predicate AnyStatus(entries: seq<Entry>, status: Status) {
    exists i :: 0 <= i < |entries| && entries[i].status == status
  }

  // ---------------------------------------------------------------- built-in merges

  /** The first hit. */
  ghost predicate IsFirstHit(entries: seq<Entry>, r: MergeResult) {
    match r
    case Winner(i) => i < |entries| && entries[i].status == Hit && forall j | 0 <= j < i :: entries[j].status != Hit
    case MergeMiss => !AnyStatus(entries, Hit)
    case Synthesized(_) => false
  }

  method FirstHit(entries: seq<Entry>) returns (r: MergeResult)
    ensures IsFirstHit(entries, r)
  {
    for i := 0 to |entries|
      invariant forall j | 0 <= j < i :: entries[j].status != Hit
    {
      if entries[i].status == Hit {
        return Winner(i);
      }
    }
    r := MergeMiss;
  }

  method PoolPreferred(entries: seq<Entry>) returns (r: MergeResult)
    ensures IsFirstHit(entries, r)
  {
    r := FirstHit(entries);
  }

  predicate TimedHit(e: Entry) {
    e.status == Hit && e.t.Some?
  }

  /** The integer a flag stands for. The native side only ever sees 64-bit ones: a float does not cross. */
  function Clock(t: Number): int {
    match t
    case Integer(n) => n
    case Float(near) => near
  }

  /**
    Last write wins: the earliest of the hits with the greatest `t`; if no hit
    carries a `t`, the first hit; a miss when there is no hit.
   */
  ghost predicate IsLatest(entries: seq<Entry>, r: MergeResult) {
    if exists j :: 0 <= j < |entries| && TimedHit(entries[j]) then
      && r.Winner? && r.index < |entries| && TimedHit(entries[r.index])
      && forall j | 0 <= j < |entries| && TimedHit(entries[j]) ::
           && Clock(entries[j].t.value) <= Clock(entries[r.index].t.value)
           && (Clock(entries[j].t.value) == Clock(entries[r.index].t.value) ==> r.index <= j)
    else IsFirstHit(entries, r)
  }

  method LastWriteWins(entries: seq<Entry>) returns (r: MergeResult)
    ensures IsLatest(entries, r)
  {
    var best: Option<(nat, Option<Number>)> := None;
    for i := 0 to |entries|
      invariant best.None? ==> forall j | 0 <= j < i :: entries[j].status != Hit
      invariant best.Some? ==>
        best.value.0 < i && entries[best.value.0].status == Hit && best.value.1 == entries[best.value.0].t
      invariant best.Some? && best.value.1.None? ==>
        forall j | 0 <= j < i :: !TimedHit(entries[j]) && (j < best.value.0 ==> entries[j].status != Hit)
      invariant best.Some? && best.value.1.Some? ==>
        forall j | 0 <= j < i && TimedHit(entries[j]) ::
          && Clock(entries[j].t.value) <= Clock(best.value.1.value)
          && (Clock(entries[j].t.value) == Clock(best.value.1.value) ==> best.value.0 <= j)
    {
      if entries[i].status == Hit {
        if best.None? {
          best := Some((i, entries[i].t));
        } else if entries[i].t.Some? && (best.value.1.None? || Clock(entries[i].t.value) > Clock(best.value.1.value)) {
          best := Some((i, entries[i].t));
        }
      }
    }
    r := if best.Some? then Winner(best.value.0) else MergeMiss;
  }

  /** Of entries whose flags are integers: the winner has the greatest, and is the earliest that has it. */
  lemma LatestByTime(entries: seq<Entry>, r: MergeResult, j: nat)
    requires IsLatest(entries, r) && j < |entries| && TimedHit(entries[j])
    requires forall i | 0 <= i < |entries| && TimedHit(entries[i]) :: entries[i].t.value.Integer?
    ensures r.Winner? && r.index < |entries| && TimedHit(entries[r.index])
    ensures entries[j].t.value.n <= entries[r.index].t.value.n
    ensures entries[j].t.value.n == entries[r.index].t.value.n ==> r.index <= j
  {
    assert TimedHit(entries[j]);
  }

  /** The three merges registered natively; each answers with a hit if there is one. */
  ghost predicate BuiltinResult(entries: seq<Entry>, r: MergeResult) {
    IsFirstHit(entries, r) || IsLatest(entries, r)
  }

  lemma BuiltinPicksHit(entries: seq<Entry>, r: MergeResult)
    requires BuiltinResult(entries, r)
    ensures AnyStatus(entries, Hit) ==> r.Winner? && r.index < |entries| && entries[r.index].status == Hit
    ensures !AnyStatus(entries, Hit) ==> r == MergeMiss
  {
    if exists j :: 0 <= j < |entries| && TimedHit(entries[j]) {
      var j :| 0 <= j < |entries| && TimedHit(entries[j]);
      assert AnyStatus(entries, Hit);
    }
  }

  /** The built-in policies leave no choice. */
  lemma BuiltinsAreFunctions(entries: seq<Entry>, r: MergeResult, q: MergeResult)
    ensures IsFirstHit(entries, r) && IsFirstHit(entries, q) ==> r == q
    ensures IsLatest(entries, r) && IsLatest(entries, q) ==> r == q
  {
  }

  // ---------------------------------------------------------------- the read handler

  /** The first entry satisfying a status and having a response. */
  ghost predicate FirstConcrete(entries: seq<Entry>, status: Status, i: nat) {
    && i < |entries| && entries[i].status == status && entries[i].res.Some?
    && forall j | 0 <= j < i :: !(entries[j].status == status && entries[j].res.Some?)
  }

  /**
    Which reply goes out. Without a usable winner a miss is preferred to an error,
    and a concrete response to a made-up one.
   */
  ghost predicate IsReply(entries: seq<Entry>, result: MergeResult, r: Reply) {
    if result.Winner? && result.index < |entries| && entries[result.index].res.Some? then r == FromPool(result.index)
    else if result.Synthesized? then r == Fresh(result.bytes)
    else if AnyStatus(entries, Miss) then
      if r.FromPool? then FirstConcrete(entries, Miss, r.index)
      else r == MissReply && forall i | 0 <= i < |entries| :: !(entries[i].status == Miss && entries[i].res.Some?)
    else
      if r.FromPool? then FirstConcrete(entries, Error, r.index)
      else r == AllFailed && forall i | 0 <= i < |entries| :: !(entries[i].status == Error && entries[i].res.Some?)
  }

  /** The tail of the read handler, from the merge's answer to the reply. */
  method SelectReply(entries: seq<Entry>, result: MergeResult) returns (r: Reply)
    ensures IsReply(entries, result, r)
  {
    if result.Winner? {
      if result.index < |entries| && entries[result.index].res.Some? {
        return FromPool(result.index);
      }
    } else if result.Synthesized? {
      return Fresh(result.bytes);
    }
    var anyMiss := false;
    var concreteError: Option<nat> := None;
    for i := 0 to |entries|
      invariant anyMiss <==> exists j :: 0 <= j < i && entries[j].status == Miss
      invariant forall j | 0 <= j < i :: !(entries[j].status == Miss && entries[j].res.Some?)
      invariant concreteError.Some? ==> concreteError.value < i && FirstConcrete(entries, Error, concreteError.value)
      invariant concreteError.None? ==> forall j | 0 <= j < i :: !(entries[j].status == Error && entries[j].res.Some?)
    {
      if entries[i].status == Miss {
        anyMiss := true;
        if entries[i].res.Some? {
          return FromPool(i);
        }
      } else if entries[i].status == Error && entries[i].res.Some? && concreteError.None? {
        concreteError := Some(i);
      }
    }
    if anyMiss {
      return MissReply;
    }
    if concreteError.Some? {
      return FromPool(concreteError.value);
    }
    r := AllFailed;
  }

  /** How a client would read a reply: a pool's response by what it says. */
  function ReplyClass(entries: seq<Entry>, r: Reply): Status {
    match r
    case FromPool(i) =>
      if i < |entries| && AnswersHit(entries[i].res) then Hit
      else if i < |entries| && AnswersMiss(entries[i].res) then Miss
      else Error
    case Fresh(_) => Hit
    case MissReply => Miss
    case AllFailed => Error
  }

  /**
    For any fan-out and any built-in merge: the client sees a hit iff some pool
    hit, a miss iff none hit and some missed, an error iff every pool failed.
   */
  lemma BuiltinReply(entries: seq<Entry>, result: MergeResult, r: Reply)
    requires Built(entries) && BuiltinResult(entries, result) && IsReply(entries, result, r)
    ensures ReplyClass(entries, r) == Hit <==> exists i :: 0 <= i < |entries| && AnswersHit(entries[i].res)
    ensures ReplyClass(entries, r) == Miss <==>
      && (forall i | 0 <= i < |entries| :: !AnswersHit(entries[i].res))
      && (exists i :: 0 <= i < |entries| && AnswersMiss(entries[i].res))
    ensures ReplyClass(entries, r) == Error <==> forall i | 0 <= i < |entries| :: Fails(entries[i].res)
    ensures r.FromPool? && AnyStatus(entries, Hit) ==> Winner(r.index) == result
  {
    StatusesAre(entries);
    BuiltinReplyByStatus(entries, result, r);
  }

  /** The statuses say what the responses say. */
  lemma StatusesAre(entries: seq<Entry>)
    requires Built(entries)
    ensures forall i | 0 <= i < |entries| ::
      && (entries[i].status == Hit <==> AnswersHit(entries[i].res))
      && (entries[i].status == Miss <==> AnswersMiss(entries[i].res))
      && (entries[i].status == Error <==> Fails(entries[i].res))
  {
    forall i | 0 <= i < |entries|
      ensures
        && (entries[i].status == Hit <==> AnswersHit(entries[i].res))
        && (entries[i].status == Miss <==> AnswersMiss(entries[i].res))
        && (entries[i].status == Error <==> Fails(entries[i].res))
    {
      ClassifyIs(entries[i].res);
      assert entries[i] == MakeEntry(entries[i].pool, entries[i].res);
    }
  }

  lemma BuiltinReplyByStatus(entries: seq<Entry>, result: MergeResult, r: Reply)
    requires Built(entries) && BuiltinResult(entries, result) && IsReply(entries, result, r)
    ensures ReplyClass(entries, r) == Hit <==> AnyStatus(entries, Hit)
    ensures ReplyClass(entries, r) == Miss <==> !AnyStatus(entries, Hit) && AnyStatus(entries, Miss)
    ensures ReplyClass(entries, r) == Error <==> forall i | 0 <= i < |entries| :: entries[i].status == Error
    ensures r.FromPool? && AnyStatus(entries, Hit) ==> Winner(r.index) == result
  {
    BuiltinPicksHit(entries, result);
    if AnyStatus(entries, Hit) {
      var i :| 0 <= i < |entries| && entries[i].status == Hit;
    } else if AnyStatus(entries, Miss) {
      var i :| 0 <= i < |entries| && entries[i].status == Miss;
    } else {
      forall i | 0 <= i < |entries| ensures entries[i].status == Error {
      }
    }
  }

  /**
    What the client gets when a merge makes nothing up and names no pool that
    answered, of the responses: the first one that says miss; failing that the
    first error a pool did send; failing that the all-failed error. The made-up
    miss never goes out.
   */
  lemma NothingChosen(entries: seq<Entry>, result: MergeResult, r: Reply)
    requires Built(entries) && IsReply(entries, result, r) && !result.Synthesized?
    requires result.Winner? && result.index < |entries| ==> entries[result.index].res.None?
    ensures r.FromPool? || r == AllFailed
    ensures r.FromPool? ==> r.index < |entries| && entries[r.index].res.Some? && !AnswersHit(entries[r.index].res)
    ensures r.FromPool? && AnswersMiss(entries[r.index].res) ==>
      forall j | 0 <= j < r.index :: !AnswersMiss(entries[j].res)
    ensures r == AllFailed || (r.FromPool? && !AnswersMiss(entries[r.index].res)) ==>
      forall j | 0 <= j < |entries| :: !AnswersMiss(entries[j].res)
    ensures r.FromPool? && !AnswersMiss(entries[r.index].res) ==>
      forall j | 0 <= j < r.index :: entries[j].res.None? || AnswersHit(entries[j].res)
    ensures r == AllFailed ==> forall j | 0 <= j < |entries| :: entries[j].res.None? || AnswersHit(entries[j].res)
  {
    StatusesAre(entries);
    if AnyStatus(entries, Miss) {
      var i :| 0 <= i < |entries| && entries[i].status == Miss;
      assert AnswersMiss(entries[i].res);
    }
  }

  // ---------------------------------------------------------------- the recorded outcome

  /** read_outcome: the outcome recorded for a read. */
  method ReadOutcome(result: MergeResult, entries: seq<Entry>) returns (outcome: Status)
    ensures outcome == OutcomeOf(result, entries)
  {
    match result
    case Synthesized(_) => outcome := Hit;
    case Winner(i) =>
      if i < |entries| {
        outcome := entries[i].status;
      } else {
        outcome := NoWinner(entries);
      }
    case MergeMiss => outcome := NoWinner(entries);
  }

  method NoWinner(entries: seq<Entry>) returns (outcome: Status)
    ensures outcome == if AnyStatus(entries, Miss) then Miss else Error
  {
    for i := 0 to |entries|
      invariant forall j | 0 <= j < i :: entries[j].status != Miss
    {
      if entries[i].status == Miss {
        return Miss;
      }
    }
    outcome := Error;
  }

  ghost function OutcomeOf(result: MergeResult, entries: seq<Entry>): Status {
    match result
    case Synthesized(_) => Hit
    case Winner(i) => if i < |entries| then entries[i].status else if AnyStatus(entries, Miss) then Miss else Error
    case MergeMiss => if AnyStatus(entries, Miss) then Miss else Error
  }

  /** The accepted sliver: the winner has no response object, and another pool missed. */
  ghost predicate SilentWinner(result: MergeResult, entries: seq<Entry>) {
    result.Winner? && result.index < |entries| && entries[result.index].res.None? && AnyStatus(entries, Miss)
  }

  /** The recorded outcome agrees with the reply's class exactly outside the sliver, for every merge result. */
  lemma OutcomeMatchesReply(entries: seq<Entry>, result: MergeResult, r: Reply)
    requires Built(entries) && IsReply(entries, result, r)
    ensures OutcomeOf(result, entries) == ReplyClass(entries, r) <==> !SilentWinner(result, entries)
  {
    if AnyStatus(entries, Miss) {
      var i :| 0 <= i < |entries| && entries[i].status == Miss;
      assert entries[i].res.Some?;
    }
  }

  /**
    The sliver is real: a merge names the silent pool, the client gets the other
    pool's miss, and an error is recorded.
   */
  lemma SilentWinnerExample(missed: Response, r: Reply)
    requires missed.ok && !missed.hit
    requires IsReply([MakeEntry([], None), MakeEntry([], Some(missed))], Winner(0), r)
    ensures
      var entries := [MakeEntry([], None), MakeEntry([], Some(missed))];
      r == FromPool(1) && ReplyClass(entries, r) == Miss && OutcomeOf(Winner(0), entries) == Error
  {
    var entries := [MakeEntry([], None), MakeEntry([], Some(missed))];
    assert entries[1].status == Miss && entries[0].status == Error;
  }

  /** When the client sees an error: a chosen entry that is one, or nothing chosen and no pool that missed. */
  ghost predicate SurfacesError(entries: seq<Entry>, result: MergeResult) {
    if result.Winner? && result.index < |entries| && entries[result.index].res.Some? then
      entries[result.index].status == Error
    else !result.Synthesized? && !AnyStatus(entries, Miss)
  }

  /**
    The error reply, exactly. Being sent although some pool did not fail, which
    the handler means to rule out, comes to this: such an entry was chosen, or
    nothing was chosen, no pool missed and some pool hit.
   */
  lemma ErrorReplyIff(entries: seq<Entry>, result: MergeResult, r: Reply)
    requires Built(entries) && IsReply(entries, result, r)
    ensures ReplyClass(entries, r) == Error <==> SurfacesError(entries, result)
    ensures
      ReplyClass(entries, r) == Error && (exists i :: 0 <= i < |entries| && entries[i].status != Error) <==>
        SurfacesError(entries, result) && (AnyStatus(entries, Hit) || AnyStatus(entries, Miss))
  {
    if AnyStatus(entries, Miss) {
      var i :| 0 <= i < |entries| && entries[i].status == Miss;
      assert entries[i].res.Some?;
    }
    if exists i :: 0 <= i < |entries| && entries[i].status != Error {
      var i :| 0 <= i < |entries| && entries[i].status != Error;
      assert entries[i].status == Hit || entries[i].status == Miss;
    }
  }

  /** A merge that answers Miss over pools that all hit is one such case. */
  lemma MissOverHitsIsError(entries: seq<Entry>, r: Reply)
    requires Built(entries) && IsReply(entries, MergeMiss, r)
    requires forall i | 0 <= i < |entries| :: entries[i].status == Hit
    ensures r == AllFailed
  {
  }

  // ---------------------------------------------------------------- writes

  function WriteRank(res: Option<Response>): (rank: nat)
    ensures 1 <= rank <= 3
  {
    if res.None? || !res.value.ok then 3
    else if res.value.code == Stored || res.value.code == Deleted || res.value.code == Ok then 1
    else 2
  }

  /** Acknowledged, answered but not stored, or failed. */
  lemma RankIs(res: Option<Response>)
    ensures WriteRank(res) == 3 <==> Fails(res)
    ensures WriteRank(res) == 1 <==> res.Some? && res.value.ok && res.value.code in {Stored, Deleted, Ok}
    ensures WriteRank(res) == 2 <==> res.Some? && res.value.ok && res.value.code == OtherCode
  {
  }

  datatype WriteReply = PoolResponse(index: nat) | NoBackends

  ghost predicate IsWorst(responses: seq<Option<Response>>, rank: nat) {
    && (forall i | 0 <= i < |responses| :: WriteRank(responses[i]) <= rank)
    && (exists i :: 0 <= i < |responses| && WriteRank(responses[i]) == rank)
  }

  predicate ConcreteOfRank(res: Option<Response>, rank: nat) {
    res.Some? && WriteRank(res) == rank
  }

  /** The worst rank, and the first concrete response that has it; without one, the generic reply. */
  ghost predicate IsReduced(responses: seq<Option<Response>>, reply: WriteReply, rank: nat) {
    && (if responses == [] then rank == 3 else IsWorst(responses, rank))
    && match reply
       case PoolResponse(i) =>
         && i < |responses| && ConcreteOfRank(responses[i], rank)
         && forall j | 0 <= j < i :: !ConcreteOfRank(responses[j], rank)
       case NoBackends => forall j | 0 <= j < |responses| :: !ConcreteOfRank(responses[j], rank)
  }

  /** reduce_write_all. */
  method ReduceWriteAll(responses: seq<Option<Response>>) returns (reply: WriteReply, rank: nat)
    ensures IsReduced(responses, reply, rank)
  {
    var worst: Option<nat> := None;
    var worstRank: int := -1;
    for i := 0 to |responses|
      invariant worstRank == -1 <==> i == 0
      invariant i > 0 ==> 1 <= worstRank <= 3
      invariant forall j | 0 <= j < i :: WriteRank(responses[j]) <= worstRank
      invariant i > 0 ==> exists j :: 0 <= j < i && WriteRank(responses[j]) == worstRank
      invariant worst.None? ==> i > 0 ==> worstRank == 3
      invariant worst.None? ==> forall j | 0 <= j < i :: !ConcreteOfRank(responses[j], worstRank)
      invariant worst.Some? ==>
        && worst.value < i && ConcreteOfRank(responses[worst.value], worstRank)
        && forall j | 0 <= j < worst.value :: !ConcreteOfRank(responses[j], worstRank)
    {
      var rank_ := WriteRank(responses[i]);
      if rank_ > worstRank {
        worst, worstRank := if responses[i].Some? then Some(i) else None, rank_;
      } else if rank_ == worstRank && worst.None? && responses[i].Some? {
        worst := Some(i);
      }
    }
    if worst.Some? {
      return PoolResponse(worst.value), worstRank;
    }
    return NoBackends, 3;
  }

  /** Success means every pool acknowledged. */
  lemma StoredIffAllStored(responses: seq<Option<Response>>, rank: nat)
    requires responses != [] && IsWorst(responses, rank)
    ensures rank == 1 <==>
      forall i | 0 <= i < |responses| ::
        responses[i].Some? && responses[i].value.ok && responses[i].value.code in {Stored, Deleted, Ok}
    ensures rank == 3 <==> exists i :: 0 <= i < |responses| && Fails(responses[i])
  {
    forall i | 0 <= i < |responses|
      ensures WriteRank(responses[i]) == 3 <==> Fails(responses[i])
    {
      RankIs(responses[i]);
    }
    var k :| 0 <= k < |responses| && WriteRank(responses[k]) == rank;
  }

  /**
    The generic reply appears exactly when some pool gave no response and none
    gave a concrete error, whatever the others said.
   */
  lemma NoBackendsIff(responses: seq<Option<Response>>, reply: WriteReply, rank: nat)
    requires responses != [] && IsReduced(responses, reply, rank)
    ensures reply == NoBackends <==>
      None in responses && forall i | 0 <= i < |responses| :: !ConcreteOfRank(responses[i], 3)
    ensures reply == NoBackends ==> rank == 3
  {
    var k :| 0 <= k < |responses| && WriteRank(responses[k]) == rank;
    if reply.NoBackends? {
      assert !ConcreteOfRank(responses[k], rank);
      assert responses[k].None?;
    } else if None in responses {
      var j :| 0 <= j < |responses| && responses[j] == None;
      assert rank == 3;
    }
  }

  /** So it also appears when one pool is silent and another has stored the value. */
  lemma NoBackendsDespiteStored(stored: Response, reply: WriteReply, rank: nat)
    requires stored.ok && stored.code == Stored && IsReduced([None, Some(stored)], reply, rank)
    ensures reply == NoBackends && rank == 3
  {
    var responses := [None, Some(stored)];
    assert WriteRank(responses[0]) == 3 && WriteRank(responses[1]) == 1;
  }

  /** The order of the pools does not change the rank. */
  lemma RankOrderIndependent(a: seq<Option<Response>>, b: seq<Option<Response>>, ra: nat, rb: nat)
    requires multiset(a) == multiset(b) && IsWorst(a, ra) && IsWorst(b, rb)
    ensures ra == rb
  {
    var i :| 0 <= i < |a| && WriteRank(a[i]) == ra;
    var j :| 0 <= j < |b| && WriteRank(b[j]) == rb;
    assert a[i] in multiset(b) && b[j] in multiset(a);
    var k :| 0 <= k < |b| && b[k] == a[i];
    var l :| 0 <= l < |a| && a[l] == b[j];
  }
}
