/** The receiving side of an IProto connection: the read handler that reassembles packets and hands them to the callback
    table, and the end-to-end theorem over packing, fragmentation, reassembly, dispatch and unpacking. */
module IprotoConn {
  import opened Bytes
  import opened IprotoCodec
  import opened IprotoFraming
  import opened IprotoTable

  /** The table after the packets have been handed to `invokeCallback` in order. */
  function DeliverAll(t: Table, packets: seq<Bytestring>): Table
    decreases |packets|
  {
    if packets == [] then t else DeliverAll(Step(t, Response(packets[0])), packets[1..])
  }

  /** The callbacks in `order` have been dismissed from `t0`, each once. */
  ghost predicate PartlyDismissed(t0: Table, t: Table, order: seq<uint32>) {
    && t == Dismiss(t0, order)
    && (forall i, j :: 0 <= i < j < |order| ==> order[i] != order[j])
    && (forall k <- order :: k in t0.pending.Keys)
    && t.pending.Keys == t0.pending.Keys - (set k | k in order)
  }

  lemma NoneDismissed(t0: Table)
    ensures PartlyDismissed(t0, t0, [])
  {
    assert (set k: uint32 | k in []) == {};
  }

  lemma DismissOne(t0: Table, t: Table, order: seq<uint32>, sync: uint32)
    requires PartlyDismissed(t0, t, order) && sync in t.pending.Keys
    ensures PartlyDismissed(t0, Invoke(t, sync, CbErr), order + [sync])
  {
    DismissAppend(t0, order, sync);
    DismissKeys(t0, order + [sync]);
  }

  lemma AllDismissed(t0: Table, t: Table, order: seq<uint32>)
    requires PartlyDismissed(t0, t, order) && t.pending.Keys == {}
    ensures Enumerates(order, t0.pending.Keys) && t.pending == map[]
  {
    forall k ensures k in t0.pending.Keys ==> k in order {
      assert k in t.pending.Keys <==> k in t0.pending.Keys && k !in order;
    }
  }

  /** From `t` to `u`, every callback that was pending has been posted, and nothing but errors has. */
  ghost predicate AllToldOfError(t: Table, u: Table) {
    && t.posted <= u.posted
    && (forall id: nat :: IsPending(t, id) && t.log[id].callable ==> IsPosted(u, id))
    && (forall k :: |t.posted| <= k < |u.posted| ==> u.posted[k].reply == CbErr)
  }

  class Conn {
    /** All requests so far; a registration is named by its place here. */
    var log: seq<Entry>
    var callbacksMap: map<uint32, nat>
    /** What was given to `io.post`. */
    var posted: seq<Post>
    ghost var lost: set<nat>
    var rdBuf: Bytestring

    ghost function Abs(): Table
      reads this
    {
      Table(log, callbacksMap, posted, lost)
    }

    ghost predicate Valid()
      reads this
    {
      Inv(Abs())
    }

    constructor ()
      ensures Valid() && Abs() == EMPTY && rdBuf == []
    {
      log, callbacksMap, posted, lost, rdBuf := [], map[], [], {}, [];
    }

    /** The part of `Write` that concerns the table. */
    method Write(sync: uint32, callable: bool) returns (id: nat)
      requires Valid()
      modifies this`log, this`callbacksMap, this`lost
      ensures Valid() && Abs() == Step(old(Abs()), Request(sync, callable)) && id == |old(log)|
      ensures log == old(log) + [Entry(sync, callable)] && callbacksMap == old(callbacksMap)[sync := id]
    {
      RegisterInv(Abs(), sync, callable);
      id := |log|;
      if sync in callbacksMap {
        lost := lost + {callbacksMap[sync]};
      }
      log := log + [Entry(sync, callable)];
      callbacksMap := callbacksMap[sync := id];
    }

    /** A callback is posted with `reply` if it waits for `sync` and there is one to call; nothing else is posted. */
    twostate predicate Posts(sync: uint32, reply: Reply)
      reads this
    {
      posted ==
        if sync in old(callbacksMap) && old(callbacksMap)[sync] < |log| && log[old(callbacksMap)[sync]].callable then
          old(posted) + [Post(old(callbacksMap)[sync], reply)]
        else
          old(posted)
    }

    /** Both overloads of `invokeCallback`: the entry goes, and its callback is posted. */
    method InvokeCallback(sync: uint32, reply: Reply)
      requires Valid() && Fits(sync, reply)
      modifies this`callbacksMap, this`posted
      ensures Valid() && Abs() == Invoke(old(Abs()), sync, reply)
      ensures callbacksMap == old(callbacksMap) - {sync} && Posts(sync, reply)
    {
      InvokeInv(Abs(), sync, reply);
      if sync in callbacksMap {
        var id := callbacksMap[sync];
        callbacksMap := callbacksMap - {sync};
        if log[id].callable {
          posted := posted + [Post(id, reply)];
        }
      }
    }

    /** `onTimeout` of the timer of registration `id`; a cancelled timer carries an error. */
    method OnTimeout(id: nat, cancelled: bool)
      requires Valid() && id < |log|
      modifies this`callbacksMap, this`posted
      ensures Valid() && Abs() == Step(old(Abs()), TimerFired(id, cancelled))
      ensures cancelled ==> callbacksMap == old(callbacksMap) && posted == old(posted)
      ensures !cancelled ==> callbacksMap == old(callbacksMap) - {log[id].sync} && Posts(log[id].sync, CbTimeout(id))
    {
      if !cancelled {
        InvokeCallback(log[id].sync, CbTimeout(id));
      }
    }

    /** One pass of the loop of `dismissCallbacks`. */
    method DismissNext(ghost t0: Table, ghost order: seq<uint32>) returns (ghost order': seq<uint32>)
      requires Valid() && PartlyDismissed(t0, Abs(), order) && callbacksMap.Keys != {}
      modifies this`callbacksMap, this`posted
      ensures Valid() && PartlyDismissed(t0, Abs(), order')
      ensures |callbacksMap.Keys| < |old(callbacksMap).Keys|
    {
      var sync :| sync in callbacksMap.Keys;
      ghost var was := callbacksMap.Keys;
      DismissOne(t0, Abs(), order, sync);
      InvokeCallback(sync, CbErr);
      assert callbacksMap.Keys == was - {sync};
      order' := order + [sync];
    }

    /** The loop of `dismissCallbacks`: the map is emptied entry by entry, in the map's own order. */
    method DismissAll() returns (ghost order: seq<uint32>)
      requires Valid()
      modifies this`callbacksMap, this`posted
      ensures Valid() && PartlyDismissed(old(Abs()), Abs(), order) && callbacksMap.Keys == {}
    {
      ghost var t0 := Abs();
      order := [];
      NoneDismissed(t0);
      while callbacksMap.Keys != {}
        invariant Valid() && PartlyDismissed(t0, Abs(), order)
        decreases |callbacksMap.Keys|
      {
        order := DismissNext(t0, order);
      }
    }

    /** `dismissCallbacks` */
    method DismissCallbacks() returns (ghost order: seq<uint32>)
      requires Valid()
      modifies this`callbacksMap, this`posted
      ensures Valid() && Enumerates(order, old(callbacksMap).Keys)
      ensures Abs() == Step(old(Abs()), Dismissed(order)) && callbacksMap == map[]
      ensures AllToldOfError(old(Abs()), Abs())
    {
      ghost var t0 := Abs();
      order := DismissAll();
      AllDismissed(t0, Abs(), order);
      DismissEmpties(t0, order);
    }

    /** `onRead` without an error: the bytes read join the buffer, every complete packet is handed to its callback, and
        the next read is asked for the bytes that the packet in the buffer still misses. */
    method OnRead(received: Bytestring) returns (want: int)
      requires Valid()
      modifies this`rdBuf, this`callbacksMap, this`posted
      ensures Valid()
      ensures var c := Cut(old(rdBuf) + received);
        && Abs() == DeliverAll(old(Abs()), c.packets)
        && rdBuf == c.residue
        && want == Want(c.residue)
    {
      rdBuf := rdBuf + received;
      ghost var all, t0 := rdBuf, Abs();
      ghost var done: seq<Bytestring> := [];
      BeforeTwice([], [], Cut(all));
      while |rdBuf| >= HEADER
        invariant Valid() && log == old(log) && lost == old(lost)
        invariant Cut(all) == Before(done, Cut(rdBuf))
        invariant Abs() == DeliverAll(t0, done)
        decreases |rdBuf|
      {
        var wantRead := HEADER + HeaderLen(rdBuf);
        if wantRead <= |rdBuf| {
          var packet := rdBuf[..wantRead];
          assert SyncOf(packet) == SyncOf(rdBuf) by { assert packet[8..12] == rdBuf[8..12]; }
          InvokeCallback(SyncOf(rdBuf), CbOk(packet));
          DeliverAppend(t0, done, packet);
          BeforeTwice(done, [packet], Cut(rdBuf[wantRead..]));
          done := done + [packet];
          rdBuf := rdBuf[wantRead..];
        } else {
          assert done + [] == done;
          return wantRead - |rdBuf|;
        }
      }
      assert done + [] == done;
      want := HEADER - |rdBuf|;
    }

    /** `onRead` with an error: every callback is dismissed, and the read buffer is given up. */
    method OnReadError() returns (ghost order: seq<uint32>)
      requires Valid()
      modifies this`rdBuf, this`callbacksMap, this`posted
      ensures Valid() && Enumerates(order, old(callbacksMap).Keys)
      ensures Abs() == Step(old(Abs()), Dismissed(order)) && callbacksMap == map[]
      ensures AllToldOfError(old(Abs()), Abs()) && rdBuf == []
    {
      order := DismissCallbacks();
      rdBuf := [];
    }
  }

  lemma {:induction false} DismissAppend(t: Table, order: seq<uint32>, sync: uint32)
    ensures Dismiss(t, order + [sync]) == Invoke(Dismiss(t, order), sync, CbErr)
    decreases |order|
  {
    if order == [] {
      assert [] + [sync] == [sync];
      assert Dismiss(t, [sync]) == Dismiss(Invoke(t, sync, CbErr), []);
    } else {
      assert (order + [sync])[1..] == order[1..] + [sync];
      DismissAppend(Invoke(t, order[0], CbErr), order[1..], sync);
    }
  }

  lemma {:induction false} DeliverAppend(t: Table, packets: seq<Bytestring>, packet: Bytestring)
    ensures DeliverAll(t, packets + [packet]) == Step(DeliverAll(t, packets), Response(packet))
    decreases |packets|
  {
    if packets == [] {
      assert [] + [packet] == [packet];
      assert DeliverAll(t, [packet]) == DeliverAll(Step(t, Response(packet)), []);
    } else {
      assert (packets + [packet])[1..] == packets[1..] + [packet];
      DeliverAppend(Step(t, Response(packets[0])), packets[1..], packet);
    }
  }

  // ---- End to end ----

  /** A reply as the server packs it. */
  datatype Answer = Answer(msg: uint32, sync: uint32, values: seq<Value>)

  ghost predicate Sendable(a: Answer) {
    BufferLast(a.values) && |EncodeAll(a.values, false)| < WORD - HEADER
  }

  function Packed(a: Answer): Bytestring {
    var payload := EncodeAll(a.values, false);
    if |payload| < WORD then Wire(a.msg, a.sync, payload) else []
  }

  function PackedAll(answers: seq<Answer>): (ps: seq<Bytestring>)
    ensures |ps| == |answers| && forall k :: 0 <= k < |answers| ==> ps[k] == Packed(answers[k])
  {
    seq(|answers|, k requires 0 <= k < |answers| => Packed(answers[k]))
  }

  lemma {:induction false} PackedWhole(a: Answer)
    requires Sendable(a)
    ensures Whole(Packed(a)) && SyncOf(Packed(a)) == a.sync
    ensures At(Packed(a), 0, Wire(a.msg, a.sync, EncodeAll(a.values, false)))
  {
    var w := Packed(a);
    WireHeader(w, a.msg, a.sync, EncodeAll(a.values, false));
  }

  /** The posts that a list of answers to pending requests causes. */
  function Posts(t: Table, answers: seq<Answer>): (ps: seq<Post>)
    requires forall k :: 0 <= k < |answers| ==> answers[k].sync in t.pending
    ensures |ps| == |answers|
  {
    seq(|answers|, k requires 0 <= k < |answers| => Post(t.pending[answers[k].sync], CbOk(Packed(answers[k]))))
  }

  ghost predicate Answers(t: Table, answers: seq<Answer>) {
    && (forall k :: 0 <= k < |answers| ==>
          && Sendable(answers[k]) && answers[k].sync in t.pending
          && t.pending[answers[k].sync] < |t.log| && t.log[t.pending[answers[k].sync]].callable)
    && (forall i, j :: 0 <= i < j < |answers| ==> answers[i].sync != answers[j].sync)
  }

  lemma {:induction false} AnswersPosted(t: Table, answers: seq<Answer>)
    requires Answers(t, answers)
    ensures DeliverAll(t, PackedAll(answers)).posted == t.posted + Posts(t, answers)
    decreases |answers|
  {
    if answers == [] {
      assert t.posted + Posts(t, answers) == t.posted;
    } else {
      var u, p := FirstAnswer(t, answers);
      var rest := answers[1..];
      assert PackedAll(answers)[1..] == PackedAll(rest);
      AnswersPosted(u, rest);
      PostsCons(t, u, answers, p);
      Reassociate(t.posted, [p], Posts(u, rest));
    }
  }

  lemma PostsCons(t: Table, u: Table, answers: seq<Answer>, p: Post)
    requires answers != [] && forall k :: 0 <= k < |answers| ==> answers[k].sync in t.pending
    requires forall k :: 1 <= k < |answers| ==>
      answers[k].sync in u.pending && u.pending[answers[k].sync] == t.pending[answers[k].sync]
    requires p == Post(t.pending[answers[0].sync], CbOk(Packed(answers[0])))
    ensures Posts(t, answers) == [p] + Posts(u, answers[1..])
  {
  }

  lemma FirstAnswer(t: Table, answers: seq<Answer>) returns (u: Table, p: Post)
    requires Answers(t, answers) && answers != []
    ensures u == Step(t, Response(Packed(answers[0]))) && u.posted == t.posted + [p]
    ensures p == Post(t.pending[answers[0].sync], CbOk(Packed(answers[0])))
    ensures Answers(u, answers[1..])
    ensures forall k :: 1 <= k < |answers| ==>
      answers[k].sync in u.pending && u.pending[answers[k].sync] == t.pending[answers[k].sync]
  {
    var a := answers[0];
    PackedWhole(a);
    p := Post(t.pending[a.sync], CbOk(Packed(a)));
    u := Step(t, Response(Packed(a)));
  }

  lemma {:induction false} DeliverJoins(t: Table, a: seq<Bytestring>, b: seq<Bytestring>)
    ensures DeliverAll(t, a + b) == DeliverAll(DeliverAll(t, a), b)
    decreases |a|
  {
    if a == [] {
      assert a + b == b;
    } else {
      assert (a + b)[1..] == a[1..] + b;
      DeliverJoins(Step(t, Response(a[0])), a[1..], b);
    }
  }

  /** The table and the read buffer after the read handler has been called for each piece, as `OnRead` leaves them. */
  function ReadAll(t: Table, rdBuf: Bytestring, pieces: seq<Bytestring>): (Table, Bytestring)
    decreases |pieces|
  {
    if pieces == [] then (t, rdBuf)
    else
      var c := Cut(rdBuf + pieces[0]);
      ReadAll(DeliverAll(t, c.packets), c.residue, pieces[1..])
  }

  /** Calls of the read handler, one for each piece, do what one call for all bytes would do. */
  lemma {:induction false} ReadsJoin(t: Table, rdBuf: Bytestring, pieces: seq<Bytestring>)
    requires !HasPacket(rdBuf)
    ensures var c := Cut(rdBuf + Join(pieces)); ReadAll(t, rdBuf, pieces) == (DeliverAll(t, c.packets), c.residue)
    decreases |pieces|
  {
    if pieces == [] {
      assert rdBuf + Join(pieces) == rdBuf;
    } else {
      var first, rest := rdBuf + pieces[0], Join(pieces[1..]);
      var c := Cut(first);
      CutConserves(first);
      ReadsJoin(DeliverAll(t, c.packets), c.residue, pieces[1..]);
      CutResumes(first, rest);
      assert rdBuf + Join(pieces) == first + rest;
      DeliverJoins(t, c.packets, Cut(c.residue + rest).packets);
    }
  }

  /** Any answers to distinct pending requests, packed, concatenated and read in any fragmentation, post the callbacks
      of those requests, in order, each with its packet; every packet unpacks to the values its server packed; and
      nothing is left in the read buffer. */
  lemma {:induction false} EndToEnd(t: Table, answers: seq<Answer>, pieces: seq<Bytestring>)
    requires Answers(t, answers) && Join(pieces) == Join(PackedAll(answers))
    ensures var (u, rdBuf) := ReadAll(t, [], pieces);
      u.posted == t.posted + Posts(t, answers) && rdBuf == []
    ensures forall k :: 0 <= k < |answers| ==> Answered(answers[k])
  {
    forall k | 0 <= k < |answers| ensures Whole(PackedAll(answers)[k]) { PackedWhole(answers[k]); }
    ReadsJoin(t, [], pieces);
    assert [] + Join(pieces) == Join(PackedAll(answers)) + [];
    CutPackets(PackedAll(answers), []);
    assert PackedAll(answers) + [] == PackedAll(answers);
    AnswersPosted(t, answers);
    forall k | 0 <= k < |answers| ensures Answered(answers[k]) { AnswerUnpacks(answers[k]); }
  }

  /** The packet of an answer, in whatever state its header field is, unpacks to the values that were packed. */
  ghost predicate Answered(a: Answer) {
    forall len: uint32 :: |Packed(a)| >= HEADER &&
      var r := Unpack(Packed(a), len, 0, Kinds(a.values));
      r.Got? && r.val == BackAll(a.values)
  }

  lemma {:induction false} AnswerUnpacks(a: Answer)
    requires Sendable(a)
    ensures Answered(a)
  {
    PackedWhole(a);
    assert a.values + [] == a.values;
    forall len: uint32
      ensures var r := Unpack(Packed(a), len, 0, Kinds(a.values)); r.Got? && r.val == BackAll(a.values)
    {
      PackUnpack(Packed(a), len, a.msg, a.sync, a.values, []);
    }
  }
}
