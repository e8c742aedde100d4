/** The callback table of an IProto connection as a state machine over its events: requests that register a callback,
    responses, timers, and the dismissal of all callbacks, in any interleaving. */
module IprotoTable {
  import opened Bytes
  import opened IprotoCodec
  import opened IprotoFraming

  /** A registration: the sync of the request, and whether its callback is callable. Its timer is named by the same
      number, its place in the log. */
  datatype Entry = Entry(sync: uint32, callable: bool)

  /** The argument of a callback. Which timer fired is kept for the record; the callback is not told. */
  datatype Reply = CbOk(packet: Bytestring) | CbErr | CbTimeout(timer: nat)

  /** A callback posted to the event loop. */
  datatype Post = Post(id: nat, reply: Reply)

  /** `log` holds all registrations so far, `pending` is `callbacks_map`, `posted` what was posted so far, and `lost`
      the registrations whose entry was overwritten by a later request with the same sync. */
  datatype Table = Table(log: seq<Entry>, pending: map<uint32, nat>, posted: seq<Post>, lost: set<nat>)

  datatype Event =
    | Request(sync: uint32, callable: bool)
    | Response(packet: Bytestring)
    | TimerFired(id: nat, cancelled: bool)
    | Dismissed(order: seq<uint32>)

  const EMPTY := Table([], map[], [], {})

  /** `callbacks_map[sync] = ...` */
  function Register(t: Table, sync: uint32, callable: bool): Table {
    Table(t.log + [Entry(sync, callable)], t.pending[sync := |t.log|], t.posted,
          if sync in t.pending then t.lost + {t.pending[sync]} else t.lost)
  }

  /** `invokeCallback(sync, reply)`: the entry goes, and its callback is posted if there is one. */
  function Invoke(t: Table, sync: uint32, reply: Reply): Table {
    if sync !in t.pending then t
    else
      var id := t.pending[sync];
      t.(pending := t.pending - {sync},
         posted := if id < |t.log| && t.log[id].callable then t.posted + [Post(id, reply)] else t.posted)
  }

  /** `dismissCallbacks`, in the order in which it meets the entries. */
  function Dismiss(t: Table, order: seq<uint32>): Table
    decreases |order|
  {
    if order == [] then t else Dismiss(Invoke(t, order[0], CbErr), order[1..])
  }

  ghost predicate Enumerates(order: seq<uint32>, keys: set<uint32>) {
    && (forall k :: k in keys <==> k in order)
    && (forall i, j :: 0 <= i < j < |order| ==> order[i] != order[j])
  }

  /** The events that can happen: timers belong to registrations, responses have a header, a dismissal meets every
      entry. */
  ghost predicate Enabled(t: Table, e: Event) {
    match e
    case Request(_, _) => true
    case Response(packet) => |packet| >= HEADER
    case TimerFired(id, _) => id < |t.log|
    case Dismissed(order) => Enumerates(order, t.pending.Keys)
  }

  function Step(t: Table, e: Event): Table {
    match e
    case Request(sync, callable) => Register(t, sync, callable)
    case Response(packet) => if |packet| >= HEADER then Invoke(t, SyncOf(packet), CbOk(packet)) else t
    case TimerFired(id, cancelled) => if !cancelled && id < |t.log| then Invoke(t, t.log[id].sync, CbTimeout(id)) else t
    case Dismissed(order) => Dismiss(t, order)
  }

  function Exec(t: Table, es: seq<Event>): Table
    decreases |es|
  {
    if es == [] then t else Exec(Step(t, es[0]), es[1..])
  }

  // ---- The fate of a registration ----

  ghost predicate IsPending(t: Table, id: nat) {
    id < |t.log| && t.log[id].sync in t.pending && t.pending[t.log[id].sync] == id
  }

  ghost predicate IsPosted(t: Table, id: nat) {
    exists k :: 0 <= k < |t.posted| && t.posted[k].id == id
  }

  /** Every callable registration is pending, posted or lost, and never two of these; a callback is posted at most once;
      a success carries a packet with the sync of its request. */
  ghost predicate Inv(t: Table) {
    && (forall s :: s in t.pending ==> t.pending[s] < |t.log| && t.log[t.pending[s]].sync == s)
    && (forall k :: 0 <= k < |t.posted| ==> GoodPost(t, t.posted[k]))
    && (forall i, j :: 0 <= i < j < |t.posted| ==> t.posted[i].id != t.posted[j].id)
    && (forall id <- t.lost :: id < |t.log|)
    && (forall id :: 0 <= id < |t.log| ==> OneFate(t, id))
  }

  ghost predicate GoodPost(t: Table, p: Post) {
    && p.id < |t.log| && t.log[p.id].callable
    && (p.reply.CbOk? ==> |p.reply.packet| >= HEADER && SyncOf(p.reply.packet) == t.log[p.id].sync)
  }

  ghost predicate OneFate(t: Table, id: nat)
    requires id < |t.log|
  {
    && (t.log[id].callable ==> IsPending(t, id) || IsPosted(t, id) || id in t.lost)
    && !(IsPending(t, id) && IsPosted(t, id))
    && !(IsPending(t, id) && id in t.lost)
    && !(IsPosted(t, id) && id in t.lost)
  }

  lemma {:induction false} RegisterInv(t: Table, sync: uint32, callable: bool)
    requires Inv(t)
    ensures Inv(Register(t, sync, callable))
  {
    var u := Register(t, sync, callable);
    forall k | 0 <= k < |u.posted| ensures GoodPost(u, u.posted[k]) {
      assert GoodPost(t, t.posted[k]);
    }
    forall id | 0 <= id < |u.log| ensures OneFate(u, id) {
      if id < |t.log| {
        assert OneFate(t, id);
        assert IsPosted(u, id) <==> IsPosted(t, id);
      } else {
        forall k | 0 <= k < |t.posted| ensures t.posted[k].id != id { assert GoodPost(t, t.posted[k]); }
      }
    }
  }

  /** A reply that may be posted for `sync`. */
  ghost predicate Fits(sync: uint32, reply: Reply) {
    reply.CbOk? ==> |reply.packet| >= HEADER && SyncOf(reply.packet) == sync
  }

  lemma PostedOneMore(t: Table, u: Table, p: Post)
    requires u.posted == t.posted + [p]
    ensures forall id :: IsPosted(u, id) <==> IsPosted(t, id) || id == p.id
  {
    forall id ensures IsPosted(u, id) <==> IsPosted(t, id) || id == p.id {
      if IsPosted(t, id) {
        var k :| 0 <= k < |t.posted| && t.posted[k].id == id;
        assert u.posted[k].id == id;
      }
      assert u.posted[|t.posted|] == p;
      if IsPosted(u, id) && id != p.id {
        var k :| 0 <= k < |u.posted| && u.posted[k].id == id;
        assert t.posted[k].id == id;
      }
    }
  }

  lemma {:induction false} InvokeInv(t: Table, sync: uint32, reply: Reply)
    requires Inv(t) && Fits(sync, reply)
    ensures Inv(Invoke(t, sync, reply))
  {
    if sync in t.pending {
      var u, id := Invoke(t, sync, reply), t.pending[sync];
      assert IsPending(t, id) && OneFate(t, id);
      if t.log[id].callable {
        PostedOneMore(t, u, Post(id, reply));
        forall k | 0 <= k < |t.posted| ensures t.posted[k].id != id { assert IsPosted(t, t.posted[k].id); }
      }
      forall k | 0 <= k < |u.posted| ensures GoodPost(u, u.posted[k]) {
        if k < |t.posted| { assert GoodPost(t, t.posted[k]); }
      }
      forall other | 0 <= other < |u.log| ensures OneFate(u, other) {
        assert OneFate(t, other);
        assert IsPending(u, other) <==> IsPending(t, other) && other != id;
        if !t.log[id].callable {
          assert IsPosted(u, other) <==> IsPosted(t, other);
        }
      }
    }
  }

  lemma {:induction false} DismissInv(t: Table, order: seq<uint32>)
    requires Inv(t)
    ensures Inv(Dismiss(t, order))
    decreases |order|
  {
    if order != [] {
      InvokeInv(t, order[0], CbErr);
      DismissInv(Invoke(t, order[0], CbErr), order[1..]);
    }
  }

  lemma {:induction false} StepInv(t: Table, e: Event)
    requires Inv(t)
    ensures Inv(Step(t, e))
  {
    match e
    case Request(sync, callable) => RegisterInv(t, sync, callable);
    case Response(packet) => if |packet| >= HEADER { InvokeInv(t, SyncOf(packet), CbOk(packet)); }
    case TimerFired(id, _) => if id < |t.log| { InvokeInv(t, t.log[id].sync, CbTimeout(id)); }
    case Dismissed(order) => DismissInv(t, order);
  }

  /** Over every interleaving from the empty table, every registration has exactly one fate. */
  lemma {:induction false} ExecInv(t: Table, es: seq<Event>)
    requires Inv(t)
    ensures Inv(Exec(t, es))
    decreases |es|
  {
    if es != [] {
      StepInv(t, es[0]);
      ExecInv(Step(t, es[0]), es[1..]);
    }
  }

  // ---- No callback is lost, if and only if no request reuses the sync of a callback that is pending ----

  /** The request replaces an entry that has a callback. */
  ghost predicate Overwrites(t: Table, e: Event) {
    && e.Request? && e.sync in t.pending
    && t.pending[e.sync] < |t.log| && t.log[t.pending[e.sync]].callable
  }

  ghost predicate NeverOverwrites(t: Table, es: seq<Event>)
    decreases |es|
  {
    es == [] || (!Overwrites(t, es[0]) && NeverOverwrites(Step(t, es[0]), es[1..]))
  }

  /** Every callback registered so far is pending or has been posted. */
  ghost predicate AllKept(t: Table) {
    forall id :: 0 <= id < |t.log| && t.log[id].callable ==> IsPending(t, id) || IsPosted(t, id)
  }

  lemma {:induction false} DismissKeeps(t: Table, order: seq<uint32>)
    ensures Dismiss(t, order).lost == t.lost && Dismiss(t, order).log == t.log
    ensures t.posted <= Dismiss(t, order).posted
    decreases |order|
  {
    if order != [] {
      DismissKeeps(Invoke(t, order[0], CbErr), order[1..]);
    }
  }

  /** A callback is kept exactly as long as it is not among the overwritten. */
  lemma {:induction false} KeptOrLost(t: Table)
    requires Inv(t)
    ensures AllKept(t) <==> forall id <- t.lost :: !t.log[id].callable
  {
    if AllKept(t) {
      forall id <- t.lost ensures !t.log[id].callable { assert OneFate(t, id); }
    }
    if forall id <- t.lost :: !t.log[id].callable {
      forall id | 0 <= id < |t.log| && t.log[id].callable ensures IsPending(t, id) || IsPosted(t, id) {
        assert OneFate(t, id);
      }
    }
  }

  lemma {:induction false} StepKept(t: Table, e: Event)
    requires Inv(t)
    ensures AllKept(Step(t, e)) <==> AllKept(t) && !Overwrites(t, e)
  {
    var u := Step(t, e);
    StepInv(t, e);
    KeptOrLost(t);
    KeptOrLost(u);
    if e.Dismissed? {
      DismissKeeps(t, e.order);
    }
    if Overwrites(t, e) {
      assert t.pending[e.sync] in u.lost;
    } else if e.Request? && e.sync in t.pending {
      var id := t.pending[e.sync];
      assert u.lost == t.lost + {id};
    } else {
      assert u.lost == t.lost;
    }
  }

  /** From any table, over any run: every callback is pending or posted in the end, if and only if it was so at the
      start and no request overwrote a pending callback. */
  lemma {:induction false} KeptExactly(t: Table, es: seq<Event>)
    requires Inv(t)
    ensures AllKept(Exec(t, es)) <==> AllKept(t) && NeverOverwrites(t, es)
    decreases |es|
  {
    if es != [] {
      StepInv(t, es[0]);
      StepKept(t, es[0]);
      KeptExactly(Step(t, es[0]), es[1..]);
    }
  }

  /** From the empty table: the registered callbacks are the disjoint union of those still pending and those posted,
      each exactly once, if and only if no request reused the sync of a callback that was pending at that moment. */
  lemma {:induction false} NothingLost(es: seq<Event>)
    ensures var t := Exec(EMPTY, es);
      && Inv(t)
      && ((forall id :: 0 <= id < |t.log| && t.log[id].callable ==> (IsPending(t, id) <==> !IsPosted(t, id))) <==>
          NeverOverwrites(EMPTY, es))
  {
    assert Inv(EMPTY);
    ExecInv(EMPTY, es);
    KeptExactly(EMPTY, es);
    var t := Exec(EMPTY, es);
    forall id | 0 <= id < |t.log| ensures !(IsPending(t, id) && IsPosted(t, id)) { assert OneFate(t, id); }
  }

  /** The case where one is lost: two requests with one sync. */
  lemma OverwriteLoses()
    ensures var t := Exec(EMPTY, [Request(5, true), Request(5, true)]);
      !IsPending(t, 0) && !IsPosted(t, 0) && IsPending(t, 1)
  {
    var e := Request(5, true);
    assert [e, e][1..] == [e];
    var t := Step(Step(EMPTY, e), e);
    assert Exec(Step(EMPTY, e), [e]) == Exec(t, []) == t;
  }

  // ---- Dismissal ----

  lemma {:induction false} DismissKeys(t: Table, order: seq<uint32>)
    ensures Dismiss(t, order).pending.Keys == t.pending.Keys - (set k | k in order)
    decreases |order|
  {
    if order != [] {
      DismissKeys(Invoke(t, order[0], CbErr), order[1..]);
      assert order == [order[0]] + order[1..];
    }
  }

  /** After `dismissCallbacks` nothing is pending; what was pending and callable has been posted, with an error. */
  lemma {:induction false} DismissEmpties(t: Table, order: seq<uint32>)
    requires Inv(t) && Enumerates(order, t.pending.Keys)
    ensures var u := Dismiss(t, order);
      && u.pending == map[]
      && t.posted <= u.posted
      && (forall id: nat :: IsPending(t, id) && t.log[id].callable ==> IsPosted(u, id))
      && (forall k :: |t.posted| <= k < |u.posted| ==> u.posted[k].reply == CbErr)
  {
    var u := Dismiss(t, order);
    DismissKeys(t, order);
    DismissKeeps(t, order);
    assert u.pending.Keys == {};
    DismissInv(t, order);
    forall id: nat | IsPending(t, id) && t.log[id].callable ensures IsPosted(u, id) {
      assert OneFate(u, id) && OneFate(t, id);
    }
    DismissReplies(t, order);
  }

  lemma {:induction false} DismissReplies(t: Table, order: seq<uint32>)
    ensures var u := Dismiss(t, order);
      |t.posted| <= |u.posted| && forall k :: |t.posted| <= k < |u.posted| ==> u.posted[k].reply == CbErr
    decreases |order|
  {
    if order != [] {
      var v := Invoke(t, order[0], CbErr);
      DismissReplies(v, order[1..]);
      DismissKeeps(v, order[1..]);
      var u := Dismiss(t, order);
      forall k | |t.posted| <= k < |u.posted| ensures u.posted[k].reply == CbErr {
        if k < |v.posted| {
          assert u.posted[k] == v.posted[k];
        }
      }
    }
  }

  // ---- Late replies and stale timers ----

  /** A response or a timer has no effect if and only if its sync is not pending. */
  lemma {:induction false} LateExactly(t: Table, e: Event)
    requires Enabled(t, e) && (e.Response? || (e.TimerFired? && !e.cancelled))
    ensures Step(t, e) == t <==> (if e.Response? then SyncOf(e.packet) else t.log[e.id].sync) !in t.pending
  {
    var sync := if e.Response? then SyncOf(e.packet) else t.log[e.id].sync;
    if sync in t.pending {
      assert sync !in Step(t, e).pending;
    }
  }

  ghost predicate FreshSyncs(t: Table) {
    forall i, j :: 0 <= i < j < |t.log| ==> t.log[i].sync != t.log[j].sync
  }

  /** With globally fresh syncs, a settled registration stays settled: whatever comes late for it changes nothing. */
  lemma {:induction false} LateHasNoEffect(t: Table, id: nat, packet: Bytestring, cancelled: bool)
    requires Inv(t) && FreshSyncs(t) && id < |t.log| && !IsPending(t, id)
    requires |packet| >= HEADER && SyncOf(packet) == t.log[id].sync
    ensures Step(t, Response(packet)) == t && Step(t, TimerFired(id, cancelled)) == t
  {
    var sync := t.log[id].sync;
    if sync in t.pending {
      PendingIsOwn(t, id);
    }
  }

  lemma PendingIsOwn(t: Table, id: nat)
    requires Inv(t) && FreshSyncs(t) && id < |t.log| && t.log[id].sync in t.pending
    ensures IsPending(t, id)
  {
    assert t.log[t.pending[t.log[id].sync]].sync == t.log[id].sync;
  }

  // ---- Whose timer times a callback out ----

  /** The timer of one registration fires while its sync is pending for another. */
  ghost predicate Stale(t: Table, e: Event) {
    && e.TimerFired? && !e.cancelled && e.id < |t.log|
    && t.log[e.id].sync in t.pending && t.pending[t.log[e.id].sync] != e.id
  }

  /** A timer that fires leaves all other registrations pending if and only if it is not stale. */
  lemma {:induction false} StaleExactly(t: Table, id: nat)
    requires Inv(t) && id < |t.log|
    ensures (forall other: nat :: other != id && IsPending(t, other) ==>
        IsPending(Step(t, TimerFired(id, false)), other)) <==> !Stale(t, TimerFired(id, false))
  {
    var sync := t.log[id].sync;
    if Stale(t, TimerFired(id, false)) {
      var other := t.pending[sync];
      assert IsPending(t, other) && !IsPending(Step(t, TimerFired(id, false)), other);
    }
  }

  /** The stale timer has a callback to hit. */
  ghost predicate StaleHits(t: Table, e: Event) {
    Stale(t, e) && t.pending[t.log[e.id].sync] < |t.log| && t.log[t.pending[t.log[e.id].sync]].callable
  }

  ghost predicate NeverStaleHits(t: Table, es: seq<Event>)
    decreases |es|
  {
    es == [] || (!StaleHits(t, es[0]) && NeverStaleHits(Step(t, es[0]), es[1..]))
  }

  ghost predicate NeverStale(t: Table, es: seq<Event>)
    decreases |es|
  {
    es == [] || (!Stale(t, es[0]) && NeverStale(Step(t, es[0]), es[1..]))
  }

  /** Every callback that was timed out was timed out by its own timer. */
  ghost predicate OwnTimeouts(posted: seq<Post>) {
    forall k :: 0 <= k < |posted| && posted[k].reply.CbTimeout? ==> posted[k].reply.timer == posted[k].id
  }

  lemma OwnTimeoutsOneMore(posted: seq<Post>, p: Post)
    ensures OwnTimeouts(posted + [p]) <==> OwnTimeouts(posted) && (p.reply.CbTimeout? ==> p.reply.timer == p.id)
  {
    var more := posted + [p];
    assert more[|posted|] == p && forall k :: 0 <= k < |posted| ==> more[k] == posted[k];
  }

  lemma {:induction false} InvokeOwnTimeouts(t: Table, sync: uint32, reply: Reply)
    requires Inv(t)
    ensures OwnTimeouts(Invoke(t, sync, reply).posted) <==>
      OwnTimeouts(t.posted) &&
      !(reply.CbTimeout? && sync in t.pending && t.pending[sync] != reply.timer && t.log[t.pending[sync]].callable)
  {
    if sync in t.pending {
      OwnTimeoutsOneMore(t.posted, Post(t.pending[sync], reply));
    }
  }

  lemma {:induction false} DismissOwnTimeouts(t: Table, order: seq<uint32>)
    requires Inv(t)
    ensures OwnTimeouts(Dismiss(t, order).posted) <==> OwnTimeouts(t.posted)
    decreases |order|
  {
    if order != [] {
      InvokeInv(t, order[0], CbErr);
      InvokeOwnTimeouts(t, order[0], CbErr);
      DismissOwnTimeouts(Invoke(t, order[0], CbErr), order[1..]);
    }
  }

  lemma {:induction false} StepOwnTimeouts(t: Table, e: Event)
    requires Inv(t)
    ensures OwnTimeouts(Step(t, e).posted) <==> OwnTimeouts(t.posted) && !StaleHits(t, e)
  {
    match e
    case Request(_, _) =>
    case Response(packet) =>
      if |packet| >= HEADER {
        InvokeOwnTimeouts(t, SyncOf(packet), CbOk(packet));
      }
    case TimerFired(id, cancelled) =>
      if !cancelled && id < |t.log| {
        InvokeOwnTimeouts(t, t.log[id].sync, CbTimeout(id));
      }
    case Dismissed(order) => DismissOwnTimeouts(t, order);
  }

  /** From any table, over any run: every callback timed out was timed out by its own timer, if and only if it was so at
      the start and no timer fired while the sync of its registration was pending for another callback. */
  lemma {:induction false} OwnTimeoutsExactly(t: Table, es: seq<Event>)
    requires Inv(t)
    ensures OwnTimeouts(Exec(t, es).posted) <==> OwnTimeouts(t.posted) && NeverStaleHits(t, es)
    decreases |es|
  {
    if es != [] {
      StepInv(t, es[0]);
      StepOwnTimeouts(t, es[0]);
      OwnTimeoutsExactly(Step(t, es[0]), es[1..]);
    }
  }

  lemma {:induction false} LogGrows(t: Table, es: seq<Event>)
    ensures t.log <= Exec(t, es).log
    decreases |es|
  {
    if es != [] {
      if es[0].Dismissed? {
        DismissKeeps(t, es[0].order);
      }
      LogGrows(Step(t, es[0]), es[1..]);
    }
  }

  /** If the syncs of a run are distinct, no timer is stale in it, and so every callback timed out was timed out by its
      own. */
  lemma {:induction false} FreshNeverStale(t: Table, es: seq<Event>)
    requires Inv(t) && FreshSyncs(Exec(t, es))
    ensures NeverStale(t, es) && NeverStaleHits(t, es)
    ensures OwnTimeouts(t.posted) ==> OwnTimeouts(Exec(t, es).posted)
    decreases |es|
  {
    if es != [] {
      LogGrows(t, es);
      assert FreshSyncs(t);
      var e := es[0];
      if e.TimerFired? && e.id < |t.log| && t.log[e.id].sync in t.pending {
        PendingIsOwn(t, e.id);
      }
      StepInv(t, e);
      FreshNeverStale(Step(t, e), es[1..]);
    }
    OwnTimeoutsExactly(t, es);
  }

  /** Without freshness they do: after a reply, the sync is used again, and the first request's timer, which the event
      loop had already queued when it was cancelled, times the second request out. */
  lemma StaleTimerHits()
    ensures var packet := Wire(0, 5, []);
      var es := [Request(5, true), Response(packet), Request(5, true), TimerFired(0, false)];
      Exec(EMPTY, es).posted == [Post(0, CbOk(packet)), Post(1, CbTimeout(0))] && NeverOverwrites(EMPTY, es)
  {
    var packet := Wire(0, 5, []);
    assert SyncOf(packet) == 5 by {
      WireHeader(packet, 0, 5, []);
    }
    var e0, e1, e2, e3 := Request(5, true), Response(packet), Request(5, true), TimerFired(0, false);
    var es := [e0, e1, e2, e3];
    var t1 := Step(EMPTY, e0);
    assert t1 == Table([Entry(5, true)], map[5 := 0], [], {});
    var t2 := Step(t1, e1);
    assert t2 == Table([Entry(5, true)], map[], [Post(0, CbOk(packet))], {});
    var t3 := Step(t2, e2);
    assert t3 == Table([Entry(5, true), Entry(5, true)], map[5 := 1], [Post(0, CbOk(packet))], {});
    var t4 := Step(t3, e3);
    assert t4.posted == [Post(0, CbOk(packet)), Post(1, CbTimeout(0))];
    assert es[1..] == [e1, e2, e3] && es[1..][1..] == [e2, e3] && es[1..][1..][1..] == [e3] &&
      es[1..][1..][1..][1..] == [];
    assert Exec(t3, [e3]) == t4;
    assert Exec(t2, [e2, e3]) == Exec(t3, [e2, e3][1..]);
    assert NeverOverwrites(t3, [e3]);
    assert NeverOverwrites(t2, [e2, e3]);
  }
}
