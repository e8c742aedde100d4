/** The write queue of `WriteBuffer`: one write at a time, in the order of the requests. */
module WriteBuffer {
  import opened Bytes

  /** A buffer to be written, named by its place among the requests, and whether it came with a callback. */
  datatype Entry = Entry(id: nat, hasCallback: bool)

  /** What became of an entry that has left the queue: it was taken for written when the write `ended` was over, well or
      with an error, or it was dropped. */
  datatype Settled = Written(e: Entry, ended: Entry, failed: bool) | Dropped(e: Entry)

  /** `inFlight` holds the entries with an `async_write` that has not ended, in the order in which those were begun;
      `requested`, `settled`, `issued` and `called` record what was asked for, what has left the queue, which writes
      were begun, and which callbacks were called with which error flag. */
  datatype Buffer = Buffer(
    queue: seq<Entry>,
    active: bool,
    inFlight: seq<Entry>,
    requested: seq<Entry>,
    settled: seq<Settled>,
    issued: seq<Entry>,
    called: seq<(nat, bool)>)

  /** Writes in flight may end in any order: `which` is the place in `inFlight` of the one that ends. */
  datatype Event = Write(hasCallback: bool) | WriteDone(which: nat, failed: bool) | Shutdown

  const EMPTY := Buffer([], false, [], [], [], [], [])

  function EnsureWrite(b: Buffer): Buffer {
    if b.active || b.queue == [] then b
    else b.(active := true, inFlight := b.inFlight + [b.queue[0]], issued := b.issued + [b.queue[0]])
  }

  function DropAll(q: seq<Entry>): (r: seq<Settled>)
    ensures |r| == |q|
    decreases |q|
  {
    if q == [] then [] else [Dropped(q[0])] + DropAll(q[1..])
  }

  function DoShutdown(b: Buffer): Buffer {
    b.(queue := [], active := false, settled := b.settled + DropAll(b.queue))
  }

  /** `onWriteDone`: the front entry is taken for the one that was written. */
  function OnWriteDone(b: Buffer, which: nat, failed: bool): Buffer
    requires which < |b.inFlight|
  {
    var ended := b.inFlight[which];
    var c := b.(active := false, inFlight := b.inFlight[..which] + b.inFlight[which + 1..]);
    var d :=
      if c.queue == [] then c
      else
        var e := c.queue[0];
        c.(queue := c.queue[1..], settled := c.settled + [Written(e, ended, failed)],
           called := if e.hasCallback then c.called + [(e.id, failed)] else c.called);
    if failed then DoShutdown(d) else EnsureWrite(d)
  }

  predicate Enabled(b: Buffer, ev: Event) {
    ev.WriteDone? ==> ev.which < |b.inFlight|
  }

  function NextEntry(b: Buffer, hasCallback: bool): Entry {
    Entry(|b.requested|, hasCallback)
  }

  function Step(b: Buffer, ev: Event): Buffer {
    match ev
    case Write(cb) =>
      var e := NextEntry(b, cb);
      EnsureWrite(b.(queue := b.queue + [e], requested := b.requested + [e]))
    case WriteDone(which, failed) => if which < |b.inFlight| then OnWriteDone(b, which, failed) else b
    case Shutdown => DoShutdown(b)
  }

  function Exec(b: Buffer, evs: seq<Event>): Buffer
    decreases |evs|
  {
    if evs == [] then b else Exec(Step(b, evs[0]), evs[1..])
  }

  predicate Possible(b: Buffer, evs: seq<Event>)
    decreases |evs|
  {
    evs == [] || (Enabled(b, evs[0]) && Possible(Step(b, evs[0]), evs[1..]))
  }

  /** `Shutdown` is not called while a write is under way. */
  predicate Calm(b: Buffer, evs: seq<Event>)
    decreases |evs|
  {
    evs == [] || ((evs[0].Shutdown? ==> b.inFlight == []) && Calm(Step(b, evs[0]), evs[1..]))
  }

  function Entries(ss: seq<Settled>): seq<Entry>
    decreases |ss|
  {
    if ss == [] then [] else Entries(ss[..|ss| - 1]) + [ss[|ss| - 1].e]
  }

  function WrittenOnly(ss: seq<Settled>): seq<Entry>
    decreases |ss|
  {
    if ss == [] then []
    else WrittenOnly(ss[..|ss| - 1]) + if ss[|ss| - 1].Written? then [ss[|ss| - 1].e] else []
  }

  function Called(ss: seq<Settled>): seq<(nat, bool)>
    decreases |ss|
  {
    if ss == [] then []
    else
      var s := ss[|ss| - 1];
      Called(ss[..|ss| - 1]) + if s.Written? && s.e.hasCallback then [(s.e.id, s.failed)] else []
  }

  /** At most one write is under way, it is that of the front entry, and there is one whenever an entry waits. Entries
      leave the queue in the order of the requests; writes are begun in that order, once for each entry that was not
      dropped; and the callbacks called are those of the entries written, each once. */
  ghost predicate Inv(b: Buffer) {
    && (b.active <==> b.queue != [])
    && b.inFlight == (if b.active then [b.queue[0]] else [])
    && b.requested == Entries(b.settled) + b.queue
    && b.issued == WrittenOnly(b.settled) + b.inFlight
    && b.called == Called(b.settled)
  }

  /** Between the end of a write and the begin of the next: nothing is under way, whatever waits. */
  ghost predicate Idle(b: Buffer) {
    && !b.active && b.inFlight == []
    && b.requested == Entries(b.settled) + b.queue
    && b.issued == WrittenOnly(b.settled)
    && b.called == Called(b.settled)
  }

  lemma SettledOneMore(ss: seq<Settled>, s: Settled)
    ensures Entries(ss + [s]) == Entries(ss) + [s.e]
    ensures WrittenOnly(ss + [s]) == WrittenOnly(ss) + if s.Written? then [s.e] else []
    ensures Called(ss + [s]) == Called(ss) + if s.Written? && s.e.hasCallback then [(s.e.id, s.failed)] else []
  {
    assert (ss + [s])[..|ss|] == ss;
  }

  lemma {:induction false} SettledDropped(ss: seq<Settled>, q: seq<Entry>)
    ensures var more := ss + DropAll(q);
      Entries(more) == Entries(ss) + q && WrittenOnly(more) == WrittenOnly(ss) && Called(more) == Called(ss)
    decreases |q|
  {
    if q == [] {
      assert ss + DropAll(q) == ss;
    } else {
      var first := Dropped(q[0]);
      SettledOneMore(ss, first);
      SettledDropped(ss + [first], q[1..]);
      Reassociate(ss, [first], DropAll(q[1..]));
      Reassociate(Entries(ss), [q[0]], q[1..]);
      assert [q[0]] + q[1..] == q;
    }
  }

  lemma EnsureInv(b: Buffer)
    requires Idle(b) || Inv(b)
    ensures Inv(EnsureWrite(b))
  {
  }

  lemma {:induction false} WriteInv(b: Buffer, hasCallback: bool)
    requires Inv(b)
    ensures Inv(Step(b, Write(hasCallback)))
  {
    var e := NextEntry(b, hasCallback);
    var c := b.(queue := b.queue + [e], requested := b.requested + [e]);
    assert b.requested + [e] == Entries(b.settled) + c.queue;
    EnsureInv(c);
  }

  lemma {:induction false} ShutdownInv(b: Buffer)
    requires Idle(b) || (Inv(b) && b.inFlight == [])
    ensures Inv(DoShutdown(b))
  {
    SettledDropped(b.settled, b.queue);
  }

  lemma {:induction false} DoneInv(b: Buffer, failed: bool)
    requires Inv(b) && b.inFlight != []
    ensures Inv(Step(b, WriteDone(0, failed)))
  {
    var e := b.queue[0];
    var settled := b.settled + [Written(e, e, failed)];
    SettledOneMore(b.settled, Written(e, e, failed));
    var d := b.(queue := b.queue[1..], active := false, inFlight := [], settled := settled,
                called := if e.hasCallback then b.called + [(e.id, failed)] else b.called);
    assert b.inFlight[..0] + b.inFlight[1..] == [];
    assert d.requested == Entries(settled) + d.queue;
    if failed {
      ShutdownInv(d);
    } else {
      EnsureInv(d);
    }
  }

  lemma {:induction false} StepInv(b: Buffer, ev: Event)
    requires Inv(b) && Enabled(b, ev) && (ev.Shutdown? ==> b.inFlight == [])
    ensures Inv(Step(b, ev))
  {
    match ev
    case Write(cb) => WriteInv(b, cb);
    case WriteDone(_, failed) => DoneInv(b, failed);
    case Shutdown => ShutdownInv(b);
  }

  lemma {:induction false} ExecInv(b: Buffer, evs: seq<Event>)
    requires Inv(b) && Possible(b, evs) && Calm(b, evs)
    ensures Inv(Exec(b, evs))
    decreases |evs|
  {
    if evs != [] {
      StepInv(b, evs[0]);
      ExecInv(Step(b, evs[0]), evs[1..]);
    }
  }

  // ---- The invariant holds if and only if no shutdown meets a write ----

  predicate Coherent(b: Buffer) {
    b.active <==> b.queue != []
  }

  /** Writes begun whose end has not been, and will not be, matched with an entry. */
  function Stray(b: Buffer): int {
    |b.issued| - |WrittenOnly(b.settled)| - if b.active then 1 else 0
  }

  lemma {:induction false} StepStray(b: Buffer, ev: Event)
    requires Coherent(b) && Enabled(b, ev)
    ensures Coherent(Step(b, ev))
    ensures Stray(Step(b, ev)) == Stray(b) + if ev.Shutdown? && b.active then 1 else 0
  {
    match ev
    case Write(_) =>
    case Shutdown => SettledDropped(b.settled, b.queue);
    case WriteDone(which, failed) =>
      if b.queue != [] {
        var last := Written(b.queue[0], b.inFlight[which], failed);
        var settled := b.settled + [last];
        SettledOneMore(b.settled, last);
        SettledDropped(settled, b.queue[1..]);
      } else {
        SettledDropped(b.settled, []);
      }
  }

  lemma {:induction false} StrayGrows(b: Buffer, evs: seq<Event>)
    requires Coherent(b) && Possible(b, evs)
    ensures Stray(Exec(b, evs)) >= Stray(b)
    decreases |evs|
  {
    if evs != [] {
      StepStray(b, evs[0]);
      StrayGrows(Step(b, evs[0]), evs[1..]);
    }
  }

  /** Over any run the invariant is kept if and only if no `Shutdown` came while a write was under way; once one did,
      the invariant never comes back. */
  lemma {:induction false} ExecExactly(b: Buffer, evs: seq<Event>)
    requires Inv(b) && Possible(b, evs)
    ensures Inv(Exec(b, evs)) <==> Calm(b, evs)
    decreases |evs|
  {
    if evs != [] {
      var c := Step(b, evs[0]);
      if evs[0].Shutdown? && b.inFlight != [] {
        StepStray(b, evs[0]);
        StrayGrows(c, evs[1..]);
      } else {
        StepInv(b, evs[0]);
        ExecExactly(c, evs[1..]);
      }
    }
  }

  // ---- Whose write a callback is told of ----

  /** Writes in flight whose entry has left the queue. */
  function Cut(b: Buffer): int {
    |b.inFlight| - if b.active then 1 else 0
  }

  /** What holds in every run, shutdowns or not: the last write begun is that of the front entry, and every write before
      it belongs to an entry that has left the queue. */
  ghost predicate Named(b: Buffer) {
    && Coherent(b)
    && b.requested == Entries(b.settled) + b.queue
    && (forall i :: 0 <= i < |b.requested| ==> b.requested[i].id == i)
    && 0 <= Cut(b) && (b.active ==> b.inFlight[Cut(b)] == b.queue[0])
    && (forall k :: 0 <= k < Cut(b) ==> b.inFlight[k].id < |b.settled|)
  }

  lemma {:induction false} EntriesLength(ss: seq<Settled>)
    ensures |Entries(ss)| == |ss|
    decreases |ss|
  {
    if ss != [] {
      EntriesLength(ss[..|ss| - 1]);
    }
  }

  lemma EnsureNamed(b: Buffer)
    requires b.active ==> Named(b)
    requires !b.active ==> Named(b.(queue := [], requested := Entries(b.settled)))
    requires b.requested == Entries(b.settled) + b.queue
    requires forall i :: 0 <= i < |b.requested| ==> b.requested[i].id == i
    ensures Named(EnsureWrite(b))
  {
  }

  lemma {:induction false} WriteNamed(b: Buffer, hasCallback: bool)
    requires Named(b)
    ensures Named(Step(b, Write(hasCallback)))
  {
    var e := NextEntry(b, hasCallback);
    var c := b.(queue := b.queue + [e], requested := b.requested + [e]);
    assert c.requested == Entries(c.settled) + c.queue;
    assert Entries(b.settled) + [] == Entries(b.settled);
    if b.active {
      assert c.queue[0] == b.queue[0];
    } else {
      assert b.requested == Entries(b.settled);
      EnsureNamed(c);
    }
  }

  lemma {:induction false} ShutdownNamed(b: Buffer)
    requires b.requested == Entries(b.settled) + b.queue
    requires forall i :: 0 <= i < |b.requested| ==> b.requested[i].id == i
    requires forall k :: 0 <= k < |b.inFlight| ==> b.inFlight[k].id < |b.settled| + |b.queue|
    ensures Named(DoShutdown(b))
  {
    SettledDropped(b.settled, b.queue);
    assert (Entries(b.settled) + b.queue) + [] == Entries(b.settled) + b.queue;
  }

  /** The front entry is the first that has not been settled. */
  lemma FrontId(b: Buffer)
    requires Named(b) && b.queue != []
    ensures b.queue[0].id == |b.settled|
  {
    EntriesLength(b.settled);
    assert b.requested[|b.settled|] == b.queue[0];
  }

  lemma {:induction false} InFlightIds(b: Buffer)
    requires Named(b)
    ensures forall k :: 0 <= k < |b.inFlight| ==> b.inFlight[k].id < |b.settled| + if b.active then 1 else 0
  {
    if b.active {
      FrontId(b);
    }
  }

  /** After the write `which` has ended and the front entry, if there is one, is settled. */
  lemma {:induction false} SettleFront(b: Buffer, which: nat, failed: bool) returns (d: Buffer)
    requires Named(b) && which < |b.inFlight|
    ensures !d.active && d.requested == b.requested == Entries(d.settled) + d.queue
    ensures |d.settled| == |b.settled| + if b.queue == [] then 0 else 1
    ensures d.settled == if b.queue == [] then b.settled
      else b.settled + [Written(b.queue[0], b.inFlight[which], failed)]
    ensures forall k :: 0 <= k < |d.inFlight| ==> d.inFlight[k].id < |d.settled|
    ensures OnWriteDone(b, which, failed) == if failed then DoShutdown(d) else EnsureWrite(d)
  {
    var ended := b.inFlight[which];
    var c := b.(active := false, inFlight := b.inFlight[..which] + b.inFlight[which + 1..]);
    InFlightIds(b);
    if b.queue == [] {
      d := c;
    } else {
      var e := b.queue[0];
      SettledOneMore(b.settled, Written(e, ended, failed));
      d := c.(queue := c.queue[1..], settled := c.settled + [Written(e, ended, failed)],
              called := if e.hasCallback then c.called + [(e.id, failed)] else c.called);
      assert b.requested == (Entries(b.settled) + [e]) + b.queue[1..];
    }
  }

  lemma {:induction false} DoneNamed(b: Buffer, which: nat, failed: bool)
    requires Named(b) && which < |b.inFlight|
    ensures Named(Step(b, WriteDone(which, failed)))
  {
    var d := SettleFront(b, which, failed);
    if failed {
      ShutdownNamed(d);
    } else {
      EntriesLength(d.settled);
      assert forall i :: 0 <= i < |d.settled| ==> Entries(d.settled)[i] == d.requested[i];
      assert Entries(d.settled) + [] == Entries(d.settled);
      EnsureNamed(d);
    }
  }

  lemma {:induction false} StepNamed(b: Buffer, ev: Event)
    requires Named(b) && Enabled(b, ev)
    ensures Named(Step(b, ev))
  {
    match ev
    case Write(cb) => WriteNamed(b, cb);
    case WriteDone(which, failed) => DoneNamed(b, which, failed);
    case Shutdown =>
      InFlightIds(b);
      ShutdownNamed(b);
  }

  /** The write that ends was cut off: its entry has left the queue, and another one is taken for it. */
  predicate MixesUp(b: Buffer, ev: Event) {
    ev.WriteDone? && b.queue != [] && ev.which < Cut(b)
  }

  /** The end of a write settles an entry other than its own if and only if an entry waits and the write that ended was
      cut off from its entry; with an empty queue it settles nothing. */
  lemma {:induction false} SettlesOwnExactly(b: Buffer, which: nat, failed: bool)
    requires Named(b) && which < |b.inFlight|
    ensures var c := Step(b, WriteDone(which, failed));
      if b.queue == [] then c.settled == b.settled && c.called == b.called
      else
        && |b.settled| < |c.settled| && c.settled[..|b.settled|] == b.settled
        && var s := c.settled[|b.settled|];
          s.Written? && s.ended == b.inFlight[which] && (s.e == s.ended <==> !MixesUp(b, WriteDone(which, failed)))
  {
    var d := SettleFront(b, which, failed);
    if b.queue != [] {
      FrontId(b);
    } else {
      SettledDropped(b.settled, []);
      assert b.settled + [] == b.settled;
    }
  }

  /** Every entry taken for written was written by its own write: each callback has been told of its own write. */
  ghost predicate OwnOutcomes(ss: seq<Settled>) {
    forall k :: 0 <= k < |ss| && ss[k].Written? ==> ss[k].e == ss[k].ended
  }

  predicate NeverMixesUp(b: Buffer, evs: seq<Event>)
    decreases |evs|
  {
    evs == [] || (!MixesUp(b, evs[0]) && NeverMixesUp(Step(b, evs[0]), evs[1..]))
  }

  lemma {:induction false} DroppedOnly(ss: seq<Settled>, q: seq<Entry>)
    ensures OwnOutcomes(ss + DropAll(q)) <==> OwnOutcomes(ss)
  {
    AllDropped(q);
    var more := ss + DropAll(q);
    assert forall k :: 0 <= k < |ss| ==> more[k] == ss[k];
  }

  lemma {:induction false} AllDropped(q: seq<Entry>)
    ensures forall k :: 0 <= k < |q| ==> DropAll(q)[k].Dropped?
    decreases |q|
  {
    if q != [] {
      AllDropped(q[1..]);
    }
  }

  lemma OwnOneMore(ss: seq<Settled>, s: Settled)
    ensures OwnOutcomes(ss + [s]) <==> OwnOutcomes(ss) && (s.Written? ==> s.e == s.ended)
  {
    var more := ss + [s];
    assert more[|ss|] == s && forall k :: 0 <= k < |ss| ==> more[k] == ss[k];
  }

  lemma {:induction false} DoneOwn(b: Buffer, which: nat, failed: bool)
    requires Named(b) && which < |b.inFlight|
    ensures OwnOutcomes(OnWriteDone(b, which, failed).settled) <==>
      OwnOutcomes(b.settled) && !MixesUp(b, WriteDone(which, failed))
  {
    var d := SettleFront(b, which, failed);
    if b.queue != [] {
      FrontId(b);
      OwnOneMore(b.settled, Written(b.queue[0], b.inFlight[which], failed));
    }
    DroppedOnly(d.settled, d.queue);
  }

  lemma {:induction false} StepOwn(b: Buffer, ev: Event)
    requires Named(b) && Enabled(b, ev)
    ensures OwnOutcomes(Step(b, ev).settled) <==> OwnOutcomes(b.settled) && !MixesUp(b, ev)
  {
    match ev
    case Write(_) =>
    case Shutdown => DroppedOnly(b.settled, b.queue);
    case WriteDone(which, failed) => DoneOwn(b, which, failed);
  }

  /** Over any run, shutdowns or not: every callback is told of its own write, if and only if no write that was cut off
      ends while an entry waits. */
  lemma {:induction false} OwnExactly(b: Buffer, evs: seq<Event>)
    requires Named(b) && Possible(b, evs)
    ensures OwnOutcomes(Exec(b, evs).settled) <==> OwnOutcomes(b.settled) && NeverMixesUp(b, evs)
    decreases |evs|
  {
    if evs != [] {
      StepNamed(b, evs[0]);
      StepOwn(b, evs[0]);
      OwnExactly(Step(b, evs[0]), evs[1..]);
    }
  }

  /** The callbacks called are those of the entries taken for written, each once and with the error reported then, in
      every run. */
  lemma {:induction false} CalledAlways(b: Buffer, evs: seq<Event>)
    requires b.called == Called(b.settled) && Possible(b, evs)
    ensures Exec(b, evs).called == Called(Exec(b, evs).settled)
    decreases |evs|
  {
    if evs != [] {
      match evs[0] {
        case Write(_) =>
        case Shutdown => SettledDropped(b.settled, b.queue);
        case WriteDone(which, failed) =>
          var settled := b.settled;
          if b.queue != [] {
            var last := Written(b.queue[0], b.inFlight[which], failed);
            SettledOneMore(b.settled, last);
            settled := b.settled + [last];
          }
          SettledDropped(settled, if b.queue == [] then [] else b.queue[1..]);
      }
      CalledAlways(Step(b, evs[0]), evs[1..]);
    }
  }

  /** From the start: each callback called was called for its own write, and with its outcome, if and only if no write
      that was cut off ends while an entry waits; and that is so in particular when no shutdown meets a write. */
  lemma {:induction false} OwnFromStart(evs: seq<Event>)
    requires Possible(EMPTY, evs)
    ensures OwnOutcomes(Exec(EMPTY, evs).settled) <==> NeverMixesUp(EMPTY, evs)
    ensures Exec(EMPTY, evs).called == Called(Exec(EMPTY, evs).settled)
    ensures Calm(EMPTY, evs) ==> NeverMixesUp(EMPTY, evs)
  {
    OwnExactly(EMPTY, evs);
    CalledAlways(EMPTY, evs);
    if Calm(EMPTY, evs) {
      CalmNeverMixesUp(EMPTY, evs);
    }
  }

  lemma {:induction false} CalmNeverMixesUp(b: Buffer, evs: seq<Event>)
    requires Inv(b) && Possible(b, evs) && Calm(b, evs)
    ensures NeverMixesUp(b, evs)
    decreases |evs|
  {
    if evs != [] {
      StepInv(b, evs[0]);
      CalmNeverMixesUp(Step(b, evs[0]), evs[1..]);
    }
  }

  // ---- Progress ----

  /** One write ends well: its entry is written, and the next write begins. */
  lemma {:induction false} SuccessStep(b: Buffer)
    requires Inv(b) && b.queue != []
    ensures var c := Step(b, WriteDone(0, false));
      Inv(c) && c.queue == b.queue[1..] && WrittenOnly(c.settled) == WrittenOnly(b.settled) + [b.queue[0]]
  {
    StepInv(b, WriteDone(0, false));
    SettledOneMore(b.settled, Written(b.queue[0], b.inFlight[0], false));
  }

  lemma RunOneMore(b: Buffer, e: Event, es: seq<Event>)
    requires Enabled(b, e) && Possible(Step(b, e), es)
    ensures Possible(b, [e] + es) && Exec(b, [e] + es) == Exec(Step(b, e), es)
  {
    assert ([e] + es)[1..] == es;
  }

  /** Everything that waits gets written, in order, if the writes end one after the other and well: the end of each
      begins the next. */
  lemma {:induction false} EverythingGetsWritten(b: Buffer) returns (es: seq<Event>)
    requires Inv(b)
    ensures Possible(b, es) && |es| == |b.queue| && forall e <- es :: e == WriteDone(0, false)
    ensures var c := Exec(b, es); Inv(c) && c.queue == [] && WrittenOnly(c.settled) == WrittenOnly(b.settled) + b.queue
    decreases |b.queue|
  {
    if b.queue == [] {
      es := [];
      assert WrittenOnly(b.settled) + b.queue == WrittenOnly(b.settled);
    } else {
      SuccessStep(b);
      var rest := EverythingGetsWritten(Step(b, WriteDone(0, false)));
      es := [WriteDone(0, false)] + rest;
      RunOneMore(b, WriteDone(0, false), rest);
      Reassociate(WrittenOnly(b.settled), [b.queue[0]], b.queue[1..]);
      assert [b.queue[0]] + b.queue[1..] == b.queue;
    }
  }

  /** How it happens: a shutdown during a write, a next request, which begins a second write beside the first, and then
      the end of the first write, for which the callback of the second request is called. */
  lemma ShutdownDuringWrite(first: bool)
    ensures var a, b := Entry(0, first), Entry(1, true);
      var two := Exec(EMPTY, [Write(first), Shutdown, Write(true)]);
      && two.inFlight == [a, b]
      && Step(two, WriteDone(0, false)).called == [(1, false)]
      && Step(two, WriteDone(0, false)).inFlight == [b]
  {
    var a, b := Entry(0, first), Entry(1, true);
    var s2 := Buffer([], false, [a], [a], [Dropped(a)], [a], []);
    assert Exec(EMPTY, [Write(first), Shutdown, Write(true)]) == Step(s2, Write(true)) by {
      ThreeSteps(EMPTY, Write(first), Shutdown, Write(true));
      assert Step(EMPTY, Write(first)) == Buffer([a], true, [a], [a], [], [a], []);
      assert DropAll([a]) == [Dropped(a)];
    }
    assert Step(s2, Write(true)) == Buffer([b], true, [a, b], [a, b], [Dropped(a)], [a, b], []);
    assert [a, b][..0] + [a, b][1..] == [b];
  }

  lemma ThreeSteps(b: Buffer, x: Event, y: Event, z: Event)
    ensures Exec(b, [x, y, z]) == Step(Step(Step(b, x), y), z)
  {
    assert [x, y, z][1..] == [y, z] && [y, z][1..] == [z];
    assert Exec(Step(Step(b, x), y), [z]) == Exec(Step(Step(Step(b, x), y), z), []);
  }

  class WriteBuffer {
    var writeQueue: seq<Entry>
    var isWriteActive: bool
    /** The event loop's side, and the requests so far, which name the entries. */
    var inFlight: seq<Entry>
    var requested: seq<Entry>
    ghost var settled: seq<Settled>
    ghost var issued: seq<Entry>
    ghost var called: seq<(nat, bool)>

    ghost function Abs(): Buffer
      reads this
    {
      Buffer(writeQueue, isWriteActive, inFlight, requested, settled, issued, called)
    }

    constructor ()
      ensures Abs() == EMPTY && Inv(Abs())
    {
      writeQueue, isWriteActive, inFlight := [], false, [];
      requested, settled, issued, called := [], [], [], [];
    }

    /** The write that is begun while none is under way: that of the entry at the front. */
    static function Begun(wasActive: bool, queue: seq<Entry>): seq<Entry> {
      if wasActive || queue == [] then [] else [queue[0]]
    }

    /** `ensureWrite`: whatever waits, afterwards a write is under way. */
    method Begin()
      modifies this
      ensures Abs() == EnsureWrite(old(Abs()))
      ensures writeQueue == old(writeQueue) && (isWriteActive <==> old(isWriteActive) || writeQueue != [])
      ensures inFlight == old(inFlight) + Begun(old(isWriteActive), writeQueue)
      ensures issued == old(issued) + Begun(old(isWriteActive), writeQueue)
      ensures settled == old(settled) && called == old(called) && requested == old(requested)
      ensures old(Idle(Abs()) || Inv(Abs())) ==> Inv(Abs())
    {
      if Idle(Abs()) || Inv(Abs()) {
        EnsureInv(Abs());
      }
      if isWriteActive || writeQueue == [] {
        return;
      }
      inFlight := inFlight + [writeQueue[0]];
      issued := issued + [writeQueue[0]];
      isWriteActive := true;
    }

    /** `Write` */
    method Enqueue(hasCallback: bool)
      modifies this
      ensures Abs() == Step(old(Abs()), Write(hasCallback))
      ensures writeQueue == old(writeQueue) + [Entry(|old(requested)|, hasCallback)] && isWriteActive
      ensures inFlight == old(inFlight) + Begun(old(isWriteActive), writeQueue)
      ensures settled == old(settled) && called == old(called)
      ensures old(Inv(Abs())) ==> Inv(Abs())
      ensures old(Named(Abs())) ==> Named(Abs())
    {
      if Inv(Abs()) {
        WriteInv(Abs(), hasCallback);
      }
      if Named(Abs()) {
        WriteNamed(Abs(), hasCallback);
      }
      var e := Entry(|requested|, hasCallback);
      writeQueue := writeQueue + [e];
      requested := requested + [e];
      Begin();
    }

    /** `Shutdown` */
    method Stop()
      modifies this
      ensures Abs() == Step(old(Abs()), Shutdown) && writeQueue == [] && !isWriteActive && called == old(called)
      ensures inFlight == old(inFlight) && issued == old(issued) && settled == old(settled) + DropAll(old(writeQueue))
      ensures old(Inv(Abs()) && inFlight == []) ==> Inv(Abs())
      ensures old(Named(Abs())) ==> Named(Abs())
    {
      if Inv(Abs()) && inFlight == [] {
        ShutdownInv(Abs());
      }
      if Named(Abs()) {
        StepNamed(Abs(), Shutdown);
      }
      settled := settled + DropAll(writeQueue);
      writeQueue := [];
      isWriteActive := false;
    }

    /** `onWriteDone`, when the event loop reports the end of a write in flight. */
    method WriteEnds(which: nat, failed: bool)
      requires which < |inFlight|
      modifies this
      ensures Abs() == Step(old(Abs()), WriteDone(which, failed))
      ensures old(writeQueue) == [] ==> called == old(called) && writeQueue == []
      ensures old(writeQueue) != [] ==>
        called == old(called) + if old(writeQueue)[0].hasCallback then [(old(writeQueue)[0].id, failed)] else []
      ensures failed ==> writeQueue == [] && !isWriteActive && issued == old(issued)
      ensures !failed && old(writeQueue) != [] ==> writeQueue == old(writeQueue)[1..]
      ensures !failed ==> (isWriteActive <==> writeQueue != []) && issued == old(issued) + Begun(false, writeQueue)
      ensures old(Inv(Abs())) ==> Inv(Abs())
      ensures old(Named(Abs())) ==> Named(Abs())
    {
      if Inv(Abs()) {
        DoneInv(Abs(), failed);
      }
      if Named(Abs()) {
        DoneNamed(Abs(), which, failed);
      }
      ghost var ended := inFlight[which];
      inFlight := inFlight[..which] + inFlight[which + 1..];
      isWriteActive := false;
      if writeQueue != [] {
        var e := writeQueue[0];
        if e.hasCallback {
          called := called + [(e.id, failed)];
        }
        settled := settled + [Written(e, ended, failed)];
        writeQueue := writeQueue[1..];
      }
      if failed {
        Stop();
      } else {
        Begin();
      }
    }
  }
}
