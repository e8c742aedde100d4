/** Reads interleaved with everything else that happens to a connection: requests, timers and dismissals that concern
    other syncs make no difference to the answers of a set of syncs. */
module IprotoRun {
  import opened Bytes
  import opened IprotoCodec
  import opened IprotoFraming
  import opened IprotoTable
  import opened IprotoConn

  /** One turn of the event loop: a piece is read, or something else happens to the table. */
  datatype Turn = Read(piece: Bytestring) | Other(e: Event)

  /** The table and the read buffer after the turns. */
  function RunAll(t: Table, rdBuf: Bytestring, turns: seq<Turn>): (Table, Bytestring)
    decreases |turns|
  {
    if turns == [] then (t, rdBuf)
    else
      match turns[0]
      case Read(piece) =>
        var c := Cut(rdBuf + piece);
        RunAll(DeliverAll(t, c.packets), c.residue, turns[1..])
      case Other(e) => RunAll(Step(t, e), rdBuf, turns[1..])
  }

  function Pieces(turns: seq<Turn>): seq<Bytestring> {
    if turns == [] then []
    else (if turns[0].Read? then [turns[0].piece] else []) + Pieces(turns[1..])
  }

  /** The event concerns no sync of `syncs`; responses come with the reads only. */
  ghost predicate Avoids(t: Table, e: Event, syncs: set<uint32>) {
    match e
    case Request(sync, _) => sync !in syncs
    case Response(_) => false
    case TimerFired(id, cancelled) => !cancelled && id < |t.log| ==> t.log[id].sync !in syncs
    case Dismissed(order) => forall sync <- order :: sync !in syncs
  }

  ghost predicate AllAvoid(t: Table, rdBuf: Bytestring, turns: seq<Turn>, syncs: set<uint32>)
    decreases |turns|
  {
    turns == [] ||
    match turns[0]
    case Read(piece) =>
      var c := Cut(rdBuf + piece);
      AllAvoid(DeliverAll(t, c.packets), c.residue, turns[1..], syncs)
    case Other(e) => Avoids(t, e, syncs) && AllAvoid(Step(t, e), rdBuf, turns[1..], syncs)
  }

  /** The posts that went to requests with one of the syncs. */
  function PostsTo(log: seq<Entry>, posted: seq<Post>, syncs: set<uint32>): seq<Post>
    decreases |posted|
  {
    if posted == [] then []
    else
      var before, p := posted[..|posted| - 1], posted[|posted| - 1];
      PostsTo(log, before, syncs) + if p.id < |log| && log[p.id].sync in syncs then [p] else []
  }

  /** Two tables show the same to the syncs: the same requests pending, and the same posts. */
  ghost predicate Similar(t: Table, u: Table, syncs: set<uint32>) {
    && (forall s <- syncs :: s in t.pending <==> s in u.pending)
    && (forall s <- syncs :: s in t.pending && s in u.pending ==> SameEntry(t, u, s))
    && PostsTo(t.log, t.posted, syncs) == PostsTo(u.log, u.posted, syncs)
  }

  ghost predicate SameEntry(t: Table, u: Table, s: uint32)
    requires s in t.pending && s in u.pending
  {
    var id := t.pending[s]; id == u.pending[s] && id < |t.log| && id < |u.log| && t.log[id] == u.log[id]
  }

  // ---- What one step does to what the syncs see ----

  lemma PostsToOneMore(log: seq<Entry>, posted: seq<Post>, p: Post, syncs: set<uint32>)
    ensures PostsTo(log, posted + [p], syncs) ==
      PostsTo(log, posted, syncs) + if p.id < |log| && log[p.id].sync in syncs then [p] else []
  {
    assert (posted + [p])[..|posted|] == posted;
  }

  lemma {:induction false} PostsToLonger(log: seq<Entry>, e: Entry, posted: seq<Post>, syncs: set<uint32>)
    requires forall k :: 0 <= k < |posted| ==> posted[k].id < |log|
    ensures PostsTo(log + [e], posted, syncs) == PostsTo(log, posted, syncs)
    decreases |posted|
  {
    if posted != [] {
      PostsToLonger(log, e, posted[..|posted| - 1], syncs);
    }
  }

  /** A request with another sync. */
  lemma {:induction false} RequestSimilar(t: Table, u: Table, sync: uint32, callable: bool, syncs: set<uint32>)
    requires Inv(t) && Similar(t, u, syncs) && sync !in syncs
    ensures Similar(Register(t, sync, callable), u, syncs)
  {
    forall k | 0 <= k < |t.posted| ensures t.posted[k].id < |t.log| { assert GoodPost(t, t.posted[k]); }
    PostsToLonger(t.log, Entry(sync, callable), t.posted, syncs);
    forall s <- syncs | s in t.pending ensures SameEntry(Register(t, sync, callable), u, s) {
      assert SameEntry(t, u, s);
    }
  }

  /** A reply, a timer or a dismissal of another sync. */
  lemma {:induction false} OtherInvoked(t: Table, u: Table, sync: uint32, reply: Reply, syncs: set<uint32>)
    requires Inv(t) && Similar(t, u, syncs) && sync !in syncs
    ensures Similar(Invoke(t, sync, reply), u, syncs)
  {
    if sync in t.pending {
      var id := t.pending[sync];
      PostsToOneMore(t.log, t.posted, Post(id, reply), syncs);
      forall s <- syncs | s in t.pending ensures SameEntry(Invoke(t, sync, reply), u, s) { assert SameEntry(t, u, s); }
    }
  }

  /** A reply to one of the syncs, on both sides. */
  lemma {:induction false} OwnInvoked(t: Table, u: Table, sync: uint32, reply: Reply, syncs: set<uint32>)
    requires Similar(t, u, syncs) && sync in syncs
    ensures Similar(Invoke(t, sync, reply), Invoke(u, sync, reply), syncs)
  {
    if sync in t.pending {
      var t', u' := Invoke(t, sync, reply), Invoke(u, sync, reply);
      assert SameEntry(t, u, sync);
      var p := Post(t.pending[sync], reply);
      PostsToOneMore(t.log, t.posted, p, syncs);
      PostsToOneMore(u.log, u.posted, p, syncs);
      forall s <- syncs | s in t'.pending ensures SameEntry(t', u', s) { assert SameEntry(t, u, s); }
    }
  }

  lemma SimilarSwaps(t: Table, u: Table, syncs: set<uint32>)
    requires Similar(t, u, syncs)
    ensures Similar(u, t, syncs)
  {
    forall s <- syncs | s in t.pending && s in u.pending ensures SameEntry(u, t, s) { assert SameEntry(t, u, s); }
  }

  lemma {:induction false} DismissSimilar(t: Table, u: Table, order: seq<uint32>, syncs: set<uint32>)
    requires Inv(t) && Similar(t, u, syncs) && forall sync <- order :: sync !in syncs
    ensures Similar(Dismiss(t, order), u, syncs)
    decreases |order|
  {
    if order != [] {
      OtherInvoked(t, u, order[0], CbErr, syncs);
      InvokeInv(t, order[0], CbErr);
      DismissSimilar(Invoke(t, order[0], CbErr), u, order[1..], syncs);
    }
  }

  /** What concerns other syncs shows nothing to these. */
  lemma {:induction false} OtherSimilar(t: Table, u: Table, e: Event, syncs: set<uint32>)
    requires Inv(t) && Similar(t, u, syncs) && Avoids(t, e, syncs)
    ensures Similar(Step(t, e), u, syncs)
  {
    match e
    case Request(sync, callable) => RequestSimilar(t, u, sync, callable, syncs);
    case TimerFired(id, cancelled) =>
      if !cancelled && id < |t.log| {
        OtherInvoked(t, u, t.log[id].sync, CbTimeout(id), syncs);
      }
    case Dismissed(order) => DismissSimilar(t, u, order, syncs);
  }

  /** The same packet, on both sides, whatever its sync. */
  lemma {:induction false} PacketSimilar(t: Table, u: Table, packet: Bytestring, syncs: set<uint32>)
    requires Inv(t) && Inv(u) && Similar(t, u, syncs)
    ensures Similar(Step(t, Response(packet)), Step(u, Response(packet)), syncs)
  {
    if |packet| >= HEADER {
      var sync, reply := SyncOf(packet), CbOk(packet);
      if sync in syncs {
        OwnInvoked(t, u, sync, reply, syncs);
      } else {
        OtherInvoked(t, u, sync, reply, syncs);
        SimilarSwaps(Invoke(t, sync, reply), u, syncs);
        OtherInvoked(u, Invoke(t, sync, reply), sync, reply, syncs);
        SimilarSwaps(Invoke(u, sync, reply), Invoke(t, sync, reply), syncs);
      }
    }
  }

  lemma {:induction false} DeliverSimilar(t: Table, u: Table, packets: seq<Bytestring>, syncs: set<uint32>)
    requires Inv(t) && Inv(u) && Similar(t, u, syncs)
    ensures var t', u' := DeliverAll(t, packets), DeliverAll(u, packets);
      Inv(t') && Inv(u') && Similar(t', u', syncs)
    decreases |packets|
  {
    if packets != [] {
      StepInv(t, Response(packets[0]));
      StepInv(u, Response(packets[0]));
      PacketSimilar(t, u, packets[0], syncs);
      DeliverSimilar(Step(t, Response(packets[0])), Step(u, Response(packets[0])), packets[1..], syncs);
    }
  }

  /** Over a whole run: to the syncs it shows what the reads alone would show, and the read buffer is the same. */
  lemma {:induction false} RunSimilar(t: Table, u: Table, rdBuf: Bytestring, turns: seq<Turn>, syncs: set<uint32>)
    requires Inv(t) && Inv(u) && Similar(t, u, syncs) && AllAvoid(t, rdBuf, turns, syncs)
    ensures var (t', rdBuf') := RunAll(t, rdBuf, turns);
      var (u', rdBuf'') := ReadAll(u, rdBuf, Pieces(turns));
      Similar(t', u', syncs) && rdBuf' == rdBuf''
    decreases |turns|
  {
    if turns != [] {
      match turns[0]
      case Read(piece) =>
        var c := Cut(rdBuf + piece);
        DeliverSimilar(t, u, c.packets, syncs);
        assert Pieces(turns)[0] == piece && Pieces(turns)[1..] == Pieces(turns[1..]);
        RunSimilar(DeliverAll(t, c.packets), DeliverAll(u, c.packets), c.residue, turns[1..], syncs);
      case Other(e) =>
        OtherSimilar(t, u, e, syncs);
        StepInv(t, e);
        assert Pieces(turns) == Pieces(turns[1..]);
        RunSimilar(Step(t, e), u, rdBuf, turns[1..], syncs);
    }
  }

  // ---- End to end, among everything else ----

  function Syncs(answers: seq<Answer>): set<uint32> {
    set k | 0 <= k < |answers| :: answers[k].sync
  }

  lemma SelfSimilar(t: Table, syncs: set<uint32>)
    requires Inv(t)
    ensures Similar(t, t, syncs)
  {
  }

  lemma {:induction false} PostsToAppend(log: seq<Entry>, posted: seq<Post>, more: seq<Post>, syncs: set<uint32>)
    requires forall k :: 0 <= k < |more| ==> more[k].id < |log| && log[more[k].id].sync in syncs
    ensures PostsTo(log, posted + more, syncs) == PostsTo(log, posted, syncs) + more
    decreases |more|
  {
    if more == [] {
      assert posted + more == posted;
    } else {
      var before, p := more[..|more| - 1], more[|more| - 1];
      assert posted + more == (posted + before) + [p];
      PostsToAppend(log, posted, before, syncs);
      PostsToOneMore(log, posted + before, p, syncs);
      assert before + [p] == more;
    }
  }

  lemma {:induction false} DeliverLog(t: Table, packets: seq<Bytestring>)
    ensures DeliverAll(t, packets).log == t.log
    decreases |packets|
  {
    if packets != [] {
      DeliverLog(Step(t, Response(packets[0])), packets[1..]);
    }
  }

  lemma PostsAreOwn(t: Table, answers: seq<Answer>)
    requires Inv(t) && Answers(t, answers)
    ensures var ps := Posts(t, answers);
      forall k :: 0 <= k < |ps| ==> ps[k].id < |t.log| && t.log[ps[k].id].sync in Syncs(answers)
  {
    forall k | 0 <= k < |answers| ensures t.log[t.pending[answers[k].sync]].sync in Syncs(answers) {
      assert answers[k].sync in Syncs(answers);
    }
  }

  /** Answers to distinct pending requests, packed, concatenated, and read in any pieces, among any other requests,
      timers and dismissals that leave those requests alone: their callbacks are posted in order, each with its packet
      and nothing else, and the read buffer ends empty. */
  lemma {:induction false} EndToEndAmongOthers(t: Table, answers: seq<Answer>, turns: seq<Turn>)
    requires Inv(t) && Answers(t, answers) && Join(Pieces(turns)) == Join(PackedAll(answers))
    requires AllAvoid(t, [], turns, Syncs(answers))
    ensures var (u, rdBuf) := RunAll(t, [], turns);
      && PostsTo(u.log, u.posted, Syncs(answers)) == PostsTo(t.log, t.posted, Syncs(answers)) + Posts(t, answers)
      && rdBuf == []
    ensures forall k :: 0 <= k < |answers| ==> Answered(answers[k])
  {
    var syncs := Syncs(answers);
    SelfSimilar(t, syncs);
    RunSimilar(t, t, [], turns, syncs);
    EndToEnd(t, answers, Pieces(turns));
    ReadsJoin(t, [], Pieces(turns));
    DeliverLog(t, Cut([] + Join(Pieces(turns))).packets);
    PostsAreOwn(t, answers);
    PostsToAppend(t.log, t.posted, Posts(t, answers), syncs);
  }

  // ---- Which packets of a stream reach a callback ----

  /** The turns as events of the table: every packet that a read completes is a response. */
  function Events(rdBuf: Bytestring, turns: seq<Turn>): seq<Event>
    decreases |turns|
  {
    if turns == [] then []
    else
      match turns[0]
      case Read(piece) =>
        var c := Cut(rdBuf + piece);
        AsResponses(c.packets) + Events(c.residue, turns[1..])
      case Other(e) => [e] + Events(rdBuf, turns[1..])
  }

  function AsResponses(packets: seq<Bytestring>): (es: seq<Event>)
    ensures |es| == |packets|
  {
    if packets == [] then [] else [Response(packets[0])] + AsResponses(packets[1..])
  }

  /** The packets among the events. */
  function Packets(es: seq<Event>): seq<Bytestring> {
    if es == [] then [] else (if es[0].Response? then [es[0].packet] else []) + Packets(es[1..])
  }

  ghost predicate ReadsAlone(turns: seq<Turn>) {
    forall k :: 0 <= k < |turns| && turns[k].Other? ==> !turns[k].e.Response?
  }

  lemma {:induction false} ExecAppend(t: Table, a: seq<Event>, b: seq<Event>)
    ensures Exec(t, a + b) == Exec(Exec(t, a), b)
    decreases |a|
  {
    if a == [] {
      assert a + b == b;
    } else {
      assert (a + b)[1..] == a[1..] + b;
      ExecAppend(Step(t, a[0]), a[1..], b);
    }
  }

  lemma {:induction false} ExecResponses(t: Table, packets: seq<Bytestring>)
    ensures Exec(t, AsResponses(packets)) == DeliverAll(t, packets)
    decreases |packets|
  {
    if packets != [] {
      assert AsResponses(packets)[1..] == AsResponses(packets[1..]);
      ExecResponses(Step(t, Response(packets[0])), packets[1..]);
    }
  }

  /** A run of turns is the run of their events. */
  lemma {:induction false} RunIsExec(t: Table, rdBuf: Bytestring, turns: seq<Turn>)
    ensures RunAll(t, rdBuf, turns).0 == Exec(t, Events(rdBuf, turns))
    decreases |turns|
  {
    if turns != [] {
      match turns[0]
      case Read(piece) =>
        var c := Cut(rdBuf + piece);
        ExecAppend(t, AsResponses(c.packets), Events(c.residue, turns[1..]));
        ExecResponses(t, c.packets);
        RunIsExec(DeliverAll(t, c.packets), c.residue, turns[1..]);
      case Other(e) =>
        ExecAppend(t, [e], Events(rdBuf, turns[1..]));
        assert Exec(t, [e]) == Exec(Step(t, e), []);
        RunIsExec(Step(t, e), rdBuf, turns[1..]);
    }
  }

  lemma {:induction false} PacketsAppend(a: seq<Event>, b: seq<Event>)
    ensures Packets(a + b) == Packets(a) + Packets(b)
    decreases |a|
  {
    if a == [] {
      assert a + b == b;
    } else {
      assert (a + b)[1..] == a[1..] + b;
      PacketsAppend(a[1..], b);
      Reassociate(if a[0].Response? then [a[0].packet] else [], Packets(a[1..]), Packets(b));
    }
  }

  lemma {:induction false} PacketsOfResponses(packets: seq<Bytestring>)
    ensures Packets(AsResponses(packets)) == packets
    decreases |packets|
  {
    if packets != [] {
      assert AsResponses(packets)[1..] == AsResponses(packets[1..]);
      PacketsOfResponses(packets[1..]);
    }
  }

  /** The bytes of a read and of those after it. */
  lemma ReadFirst(rdBuf: Bytestring, piece: Bytestring, turns: seq<Turn>)
    requires turns != [] && turns[0] == Read(piece)
    ensures var c := Cut(rdBuf + piece);
      Cut(rdBuf + Join(Pieces(turns))) == Before(c.packets, Cut(c.residue + Join(Pieces(turns[1..]))))
  {
    var rest := Join(Pieces(turns[1..]));
    CutResumes(rdBuf + piece, rest);
    assert Pieces(turns)[0] == piece && Pieces(turns)[1..] == Pieces(turns[1..]);
    Reassociate(rdBuf, piece, rest);
  }

  lemma {:induction false} PacketsOfRead(packets: seq<Bytestring>, es: seq<Event>)
    ensures Packets(AsResponses(packets) + es) == packets + Packets(es)
  {
    PacketsAppend(AsResponses(packets), es);
    PacketsOfResponses(packets);
  }

  lemma PacketsOfOther(e: Event, es: seq<Event>)
    requires !e.Response?
    ensures Packets([e] + es) == Packets(es)
  {
    assert ([e] + es)[1..] == es;
  }

  lemma PiecesOfOther(turns: seq<Turn>)
    requires turns != [] && turns[0].Other?
    ensures Pieces(turns) == Pieces(turns[1..])
  {
  }

  /** The packets among the events of a run are those of the bytes read, in order, however they were read. */
  lemma {:induction false} PacketsOfRun(rdBuf: Bytestring, turns: seq<Turn>)
    requires ReadsAlone(turns) && !HasPacket(rdBuf)
    ensures Packets(Events(rdBuf, turns)) == Cut(rdBuf + Join(Pieces(turns))).packets
    decreases |turns|
  {
    if turns == [] {
      assert rdBuf + Join(Pieces(turns)) == rdBuf;
    } else {
      match turns[0]
      case Read(piece) =>
        var c := Cut(rdBuf + piece);
        CutConserves(rdBuf + piece);
        PacketsOfRun(c.residue, turns[1..]);
        PacketsOfRead(c.packets, Events(c.residue, turns[1..]));
        ReadFirst(rdBuf, piece, turns);
      case Other(e) =>
        PacketsOfRun(rdBuf, turns[1..]);
        PacketsOfOther(e, Events(rdBuf, turns[1..]));
        PiecesOfOther(turns);
    }
  }

  /** The read buffer holds what was cut off behind the last packet. */
  lemma {:induction false} ResidueOfRun(t: Table, rdBuf: Bytestring, turns: seq<Turn>)
    requires !HasPacket(rdBuf)
    ensures RunAll(t, rdBuf, turns).1 == Cut(rdBuf + Join(Pieces(turns))).residue
    decreases |turns|
  {
    if turns == [] {
      assert rdBuf + Join(Pieces(turns)) == rdBuf;
    } else {
      match turns[0]
      case Read(piece) =>
        var c := Cut(rdBuf + piece);
        CutConserves(rdBuf + piece);
        ResidueOfRun(DeliverAll(t, c.packets), c.residue, turns[1..]);
        ReadFirst(rdBuf, piece, turns);
      case Other(e) =>
        ResidueOfRun(Step(t, e), rdBuf, turns[1..]);
        PiecesOfOther(turns);
    }
  }

  predicate Concerns(packet: Bytestring, syncs: set<uint32>) {
    |packet| >= HEADER && SyncOf(packet) in syncs
  }

  /** The packets that concern one of the syncs. */
  function For(packets: seq<Bytestring>, syncs: set<uint32>): seq<Bytestring> {
    if packets == [] then []
    else (if Concerns(packets[0], syncs) then [packets[0]] else []) + For(packets[1..], syncs)
  }

  /** The packets that callbacks were given for one of the syncs. */
  function Given(posted: seq<Post>, syncs: set<uint32>): seq<Bytestring>
    decreases |posted|
  {
    if posted == [] then []
    else
      var before, r := posted[..|posted| - 1], posted[|posted| - 1].reply;
      Given(before, syncs) + if r.CbOk? && Concerns(r.packet, syncs) then [r.packet] else []
  }

  lemma GivenOneMore(posted: seq<Post>, p: Post, syncs: set<uint32>)
    ensures Given(posted + [p], syncs) ==
      Given(posted, syncs) + if p.reply.CbOk? && Concerns(p.reply.packet, syncs) then [p.reply.packet] else []
  {
    assert (posted + [p])[..|posted|] == posted;
  }

  /** A callback waits for this packet. */
  predicate Awaits(t: Table, packet: Bytestring) {
    && |packet| >= HEADER && SyncOf(packet) in t.pending
    && t.pending[SyncOf(packet)] < |t.log| && t.log[t.pending[SyncOf(packet)]].callable
  }

  /** Every packet for one of the syncs meets a callback that waits for it at that moment. */
  ghost predicate AllAwaited(t: Table, es: seq<Event>, syncs: set<uint32>)
    decreases |es|
  {
    es == [] ||
    ((es[0].Response? && Concerns(es[0].packet, syncs) ==> Awaits(t, es[0].packet))
     && AllAwaited(Step(t, es[0]), es[1..], syncs))
  }

  lemma {:induction false} DismissGives(t: Table, order: seq<uint32>, syncs: set<uint32>)
    ensures Given(Dismiss(t, order).posted, syncs) == Given(t.posted, syncs)
    decreases |order|
  {
    if order != [] {
      var u := Invoke(t, order[0], CbErr);
      if u.posted != t.posted {
        GivenOneMore(t.posted, Post(t.pending[order[0]], CbErr), syncs);
      }
      DismissGives(u, order[1..], syncs);
    }
  }

  /** What a step gives to the callbacks of the syncs. */
  function GivenBy(t: Table, e: Event, syncs: set<uint32>): seq<Bytestring> {
    if e.Response? && Concerns(e.packet, syncs) && Awaits(t, e.packet) then [e.packet] else []
  }

  lemma {:induction false} StepGives(t: Table, e: Event, syncs: set<uint32>)
    ensures Given(Step(t, e).posted, syncs) == Given(t.posted, syncs) + GivenBy(t, e, syncs)
  {
    match e
    case Request(_, _) =>
    case Response(packet) =>
      if |packet| >= HEADER && SyncOf(packet) in t.pending {
        GivenOneMore(t.posted, Post(t.pending[SyncOf(packet)], CbOk(packet)), syncs);
      }
    case TimerFired(id, cancelled) =>
      if !cancelled && id < |t.log| && t.log[id].sync in t.pending {
        GivenOneMore(t.posted, Post(t.pending[t.log[id].sync], CbTimeout(id)), syncs);
      }
    case Dismissed(order) => DismissGives(t, order, syncs);
  }

  lemma TooFew(all: seq<Bytestring>, before: seq<Bytestring>, first: seq<Bytestring>, rest: seq<Bytestring>)
    requires first != [] && |all| <= |before| + |rest|
    ensures all != before + (first + rest)
  {
  }

  /** From any table, over any run: the callbacks of the syncs are given exactly the packets for those syncs, in order,
      if and only if each meets a callback that waits for it; and they are never given more. */
  lemma {:induction false} GivenExactly(t: Table, es: seq<Event>, syncs: set<uint32>)
    ensures var all := Given(Exec(t, es).posted, syncs);
      && |all| <= |Given(t.posted, syncs)| + |For(Packets(es), syncs)|
      && (all == Given(t.posted, syncs) + For(Packets(es), syncs) <==> AllAwaited(t, es, syncs))
    decreases |es|
  {
    if es != [] {
      var e, rest := es[0], For(Packets(es[1..]), syncs);
      var before, all := Given(t.posted, syncs), Given(Exec(t, es).posted, syncs);
      var first := if e.Response? && Concerns(e.packet, syncs) then [e.packet] else [];
      StepGives(t, e, syncs);
      GivenExactly(Step(t, e), es[1..], syncs);
      FirstFor(es, syncs);
      assert For(Packets(es), syncs) == first + rest;
      if GivenBy(t, e, syncs) == first {
        Reassociate(before, first, rest);
      } else {
        assert before + [] == before;
        TooFew(all, before, first, rest);
      }
    }
  }

  lemma FirstFor(es: seq<Event>, syncs: set<uint32>)
    requires es != []
    ensures For(Packets(es), syncs) ==
      (if es[0].Response? && Concerns(es[0].packet, syncs) then [es[0].packet] else []) + For(Packets(es[1..]), syncs)
  {
    if es[0].Response? {
      assert Packets(es)[0] == es[0].packet && Packets(es)[1..] == Packets(es[1..]);
    } else {
      assert Packets(es) == Packets(es[1..]);
      assert [] + For(Packets(es), syncs) == For(Packets(es), syncs);
    }
  }

  /** Any whole packets, of any syncs, concatenated and read in any pieces, among any requests, timers and dismissals:
      those for a set of syncs are given to their callbacks, all of them and in order, if and only if each of them is
      awaited when it is delivered, be it by a request made during the run. Every packet given has the sync of the
      request it is given to, and the read buffer ends empty. */
  lemma {:induction false} AllArriveExactly(t: Table, packets: seq<Bytestring>, turns: seq<Turn>, syncs: set<uint32>)
    requires Inv(t) && AllWhole(packets) && Join(Pieces(turns)) == Join(packets) && ReadsAlone(turns)
    ensures var (u, rdBuf) := RunAll(t, [], turns);
      && (Given(u.posted, syncs) == Given(t.posted, syncs) + For(packets, syncs) <==>
          AllAwaited(t, Events([], turns), syncs))
      && Inv(u) && rdBuf == []
  {
    var es := Events([], turns);
    RunIsExec(t, [], turns);
    PacketsOfRun([], turns);
    ResidueOfRun(t, [], turns);
    assert [] + Join(packets) == Join(packets) && Join(packets) + [] == Join(packets);
    CutPackets(packets, []);
    assert packets + [] == packets;
    GivenExactly(t, es, syncs);
    ExecInv(t, es);
  }
}
