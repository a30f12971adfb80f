/**
  The debounce loop of the watcher thread (rust/crates/mcgateway-clib/src/watcher.rs)
  over a stream of timed events with exact timers. The thread may be busy for
  any length of time acting on a batch; events that arrive meanwhile wait in the
  channel. When an event arrives at the very instant a wait runs out, either may
  win.
 */
module Watcher {
  import opened Reload

  datatype Timed = Timed(at: nat, event: Event)

  datatype Trigger = ConfigTrigger | UdfSwap

  datatype Action = Rescan | RequestReload(trigger: Trigger)

  /**
    Events `from..to` handled together: the thread was back at `recv` at `free`,
    opened the batch at `start`, took its last event at `last`, acted at `closed`.
   */
  datatype Batch = Batch(from: nat, to: nat, free: nat, start: nat, last: nat, closed: nat, actions: seq<Action>)

  function Max(a: nat, b: nat): nat { if a < b then b else a }
  function Min(a: nat, b: nat): nat { if a < b then a else b }

  ghost predicate InOrder(events: seq<Timed>) {
    forall i, j | 0 <= i < j < |events| :: events[i].at <= events[j].at
  }

  ghost predicate Touches(events: seq<Timed>, from: nat, to: nat, e: Event)
    requires from <= to <= |events|
  {
    exists i :: from <= i < to && events[i].event == e
  }

  /** What the thread does when a batch closes. */
  function ActionsFor(config: bool, udf: bool): seq<Action> {
    if udf then [Rescan, RequestReload(UdfSwap)]
    else if config then [RequestReload(ConfigTrigger)]
    else []
  }

  /** When the thread is back at `recv`, having acted on these batches. */
  function FreeAfter(batches: seq<Batch>, busy: nat -> nat): nat {
    if batches == [] then 0 else batches[|batches| - 1].closed + busy(|batches| - 1)
  }

  /**
    A batch closes a debounce period after the last event it took, or at the age
    cap if that is sooner. It takes nothing more once the cap is reached, and an
    event it left behind either came no earlier than it closed, or met the cap.
   */
  ghost predicate GoodBatch(events: seq<Timed>, debounce: nat, maxAge: nat, b: Batch) {
    && b.from < b.to <= |events|
    && b.free <= b.start && events[b.from].at <= b.start && (b.start == b.free || b.start == events[b.from].at)
    && b.start <= b.last && (forall i | b.from <= i < b.to :: events[i].at <= b.last)
    && b.last <= b.closed && b.closed <= b.last + debounce && b.closed <= b.start + maxAge
    && (b.closed == b.last + debounce || b.closed == b.start + maxAge)
    && (forall i | b.from <= i < b.to - 1 :: maxAge > 0 && events[i].at < b.start + maxAge)
    && (b.to < |events| ==> b.closed <= events[b.to].at || b.last == b.start + maxAge)
    && b.actions == ActionsFor(Touches(events, b.from, b.to, ConfigEvent), Touches(events, b.from, b.to, UdfEvent))
  }

  /** The batches cut the first `n` events into consecutive stretches, one after the other in time. */
  ghost predicate Tiled(batches: seq<Batch>, busy: nat -> nat, n: nat) {
    if batches == [] then n == 0
    else
      var init, last := batches[..|batches| - 1], batches[|batches| - 1];
      last.from < last.to == n && last.free == FreeAfter(init, busy) && Tiled(init, busy, last.from)
  }

  ghost predicate Batched(events: seq<Timed>, debounce: nat, maxAge: nat, busy: nat -> nat, batches: seq<Batch>,
                          n: nat)
  {
    && (forall b | b in batches :: GoodBatch(events, debounce, maxAge, b))
    && Tiled(batches, busy, n)
  }

  /** One turn of the outer loop: take the event at `from`, absorb more until quiet or too old, and act. */
  method TakeBatch(events: seq<Timed>, debounce: nat, maxAge: nat, free: nat, from: nat) returns (b: Batch)
    requires InOrder(events) && from < |events|
    ensures b.from == from && b.free == free && GoodBatch(events, debounce, maxAge, b)
  {
    var start := Max(free, events[from].at);
    var now, to := start, from + 1;
    var last := start;
    var config, udf := events[from].event == ConfigEvent, events[from].event == UdfEvent;
    while true
      invariant from < to <= |events|
      invariant start <= last == now <= start + maxAge
      invariant forall i | from <= i < to :: events[i].at <= last
      invariant forall i | from <= i < to - 1 :: maxAge > 0 && events[i].at < start + maxAge
      invariant config == Touches(events, from, to, ConfigEvent)
      invariant udf == Touches(events, from, to, UdfEvent)
      decreases |events| - to
    {
      var elapsed := now - start;
      if elapsed >= maxAge {
        break;
      }
      var wait := Min(debounce, maxAge - elapsed);
      var tie := *;
      if to < |events| && (events[to].at < now + wait || (events[to].at == now + wait && tie)) {
        now := Max(now, events[to].at);
        last := now;
        config := config || events[to].event == ConfigEvent;
        udf := udf || events[to].event == UdfEvent;
        TouchesNext(events, from, to, ConfigEvent);
        TouchesNext(events, from, to, UdfEvent);
        to := to + 1;
      } else {
        now := now + wait;
        break;
      }
    }
    b := Batch(from, to, free, start, last, now, ActionsFor(config, udf));
  }

  lemma TouchesNext(events: seq<Timed>, from: nat, to: nat, e: Event)
    requires from <= to < |events|
    ensures Touches(events, from, to + 1, e) <==> Touches(events, from, to, e) || events[to].event == e
  {
  }

  /** The thread's loop over a whole stream that then stays quiet. */
  method Watch(events: seq<Timed>, debounce: nat, maxAge: nat, busy: nat -> nat) returns (batches: seq<Batch>)
    requires InOrder(events)
    ensures Batched(events, debounce, maxAge, busy, batches, |events|)
  {
    batches := [];
    var next, free := 0, 0;
    while next < |events|
      invariant next <= |events| && Batched(events, debounce, maxAge, busy, batches, next)
      invariant free == FreeAfter(batches, busy)
    {
      var b := TakeBatch(events, debounce, maxAge, free, next);
      assert (batches + [b])[..|batches|] == batches;
      free := b.closed + busy(|batches|);
      batches := batches + [b];
      next := b.to;
    }
  }

  // ---------------------------------------------------------------- what the batches promise

  /** The batch that took event `i`. */
  ghost function BatchOf(batches: seq<Batch>, busy: nat -> nat, n: nat, i: nat): (k: nat)
    requires Tiled(batches, busy, n) && i < n
    ensures k < |batches| && batches[k].from <= i < batches[k].to
  {
    var last := |batches| - 1;
    if batches[last].from <= i then last else BatchOf(batches[..last], busy, batches[last].from, i)
  }

  lemma {:induction false} BatchesEnd(batches: seq<Batch>, busy: nat -> nat, n: nat, j: nat)
    requires Tiled(batches, busy, n) && j < |batches|
    ensures batches[j].from < batches[j].to <= n
  {
    if j < |batches| - 1 {
      BatchesEnd(batches[..|batches| - 1], busy, batches[|batches| - 1].from, j);
    }
  }

  lemma {:induction false} BatchesAscend(batches: seq<Batch>, busy: nat -> nat, n: nat, j: nat, k: nat)
    requires Tiled(batches, busy, n) && j < k < |batches|
    ensures batches[j].to <= batches[k].from
  {
    var last := |batches| - 1;
    if k < last {
      BatchesAscend(batches[..last], busy, batches[last].from, j, k);
    } else {
      BatchesEnd(batches[..last], busy, batches[last].from, j);
    }
  }

  function Reloads(actions: seq<Action>): nat {
    if actions == [] then 0
    else (if actions[0].RequestReload? then 1 else 0) + Reloads(actions[1..])
  }

  lemma ReloadsOf(config: bool, udf: bool)
    ensures Reloads(ActionsFor(config, udf)) == if config || udf then 1 else 0
  {
    assert [RequestReload(UdfSwap)][1..] == [];
    assert [Rescan, RequestReload(UdfSwap)][1..] == [RequestReload(UdfSwap)];
    assert [RequestReload(ConfigTrigger)][1..] == [];
  }

  /**
    Every relevant event is in exactly one batch; that batch requests exactly one
    reload, no later than the age cap after the thread first took it up; and if
    the event concerned a module, the rescan comes before that reload.
   */
  lemma EventIsActedOn(events: seq<Timed>, debounce: nat, maxAge: nat, busy: nat -> nat, batches: seq<Batch>, i: nat)
    returns (k: nat)
    requires Batched(events, debounce, maxAge, busy, batches, |events|) && i < |events|
    requires events[i].event != OtherEvent
    ensures k < |batches| && batches[k].from <= i < batches[k].to
    ensures forall j | 0 <= j < |batches| && j != k :: !(batches[j].from <= i < batches[j].to)
    ensures Reloads(batches[k].actions) == 1
    ensures batches[k].closed <= batches[k].start + maxAge
    ensures events[i].event == UdfEvent ==> batches[k].actions == [Rescan, RequestReload(UdfSwap)]
  {
    k := BatchOf(batches, busy, |events|, i);
    forall j | 0 <= j < |batches| && j != k ensures !(batches[j].from <= i < batches[j].to) {
      BatchesAscend(batches, busy, |events|, if j < k then j else k, if j < k then k else j);
    }
    assert batches[k] in batches;
    ActsOnce(events, debounce, maxAge, batches[k], i);
  }

  lemma ActsOnce(events: seq<Timed>, debounce: nat, maxAge: nat, b: Batch, i: nat)
    requires GoodBatch(events, debounce, maxAge, b) && b.from <= i < b.to && events[i].event != OtherEvent
    ensures Reloads(b.actions) == 1
    ensures events[i].event == UdfEvent ==> b.actions == [Rescan, RequestReload(UdfSwap)]
  {
    assert Touches(events, b.from, b.to, events[i].event);
    ReloadsOf(Touches(events, b.from, b.to, ConfigEvent), Touches(events, b.from, b.to, UdfEvent));
  }

  /** What a batch does, event by event: a rescan first if a module was touched, and what the reload is put down to. */
  lemma BatchActions(events: seq<Timed>, debounce: nat, maxAge: nat, b: Batch)
    requires GoodBatch(events, debounce, maxAge, b)
    ensures b.actions ==
      if exists i :: b.from <= i < b.to && events[i].event == UdfEvent then [Rescan, RequestReload(UdfSwap)]
      else if exists i :: b.from <= i < b.to && events[i].event == ConfigEvent then [RequestReload(ConfigTrigger)]
      else []
  {
  }

  /** A batch acts at all exactly when it holds a relevant event. */
  lemma IdleBatch(events: seq<Timed>, debounce: nat, maxAge: nat, b: Batch)
    requires GoodBatch(events, debounce, maxAge, b)
    ensures b.actions == [] <==> forall i | b.from <= i < b.to :: events[i].event == OtherEvent
  {
    if b.actions == [] {
      forall i | b.from <= i < b.to ensures events[i].event == OtherEvent {
        assert Touches(events, b.from, b.to, events[i].event);
      }
    }
  }
}
