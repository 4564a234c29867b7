/** Two endpoints of a channel, joined by the messages in flight between them (section 5.2 of RFC 4254). */
module Connection {
  import opened Bytes
  import opened Naming
  import opened Messages
  import opened Brigade
  import opened Views
  import opened Channel

  /**
   * Conservation of credit, in any mode and after any operations: what x's window says y may still start to send is
   * what y thinks it may. (Owed takes off the data and the adjustments in flight, and counts separately the bytes x
   * received without charging its window and the credit it announced without adding it.)
   */
  ghost predicate Conserved(x: Endpoint, y: Endpoint)
    reads x`remoteWindow, x`uncounted, x`forgotten, x.inbox, x.outbox, y`localWindow
  {
    x.Owed() == y.localWindow
  }

  /** The endpoints are each other's ends. */
  ghost predicate Paired(x: Endpoint, y: Endpoint) {
    && x != y && x.inbox == y.outbox && x.outbox == y.inbox && x.inbox != x.outbox
    && x.localId == y.remoteId && x.remoteId == y.localId
    && 0 < x.localPacket <= y.remotePacket && 0 < y.localPacket <= x.remotePacket
  }

  /** No data message about channel `id` is bigger than the packet size. */
  ghost predicate Sized(p: (seq<Msg>, u32, nat)) {
    forall i | 0 <= i < |p.0| && Carries(p.0[i], p.1) :: |p.0[i].bytes| <= p.2
  }

  ghost predicate AllSized(ms: seq<Msg>, id: u32, limit: nat) { Holds(Sized, (ms, id, limit)) }

  /** An end that has charged its window for all it received, and credited all it announced. */
  ghost predicate Exact(x: Endpoint)
    reads x`mode, x`packets, x`remoteWindow, x`refunding, x`readState, x`adjustQueue, x`adjusting, x`announced
    reads x`forgotten, x`uncounted, x`faults, x.inbox, x.outbox
  {
    && x.uncounted == 0 && x.forgotten == 0 && x.Now().Steady()
    && AllSized(x.inbox.msgs, x.localId, x.remotePacket)
  }

  /** For such an end the law reads as section 5.2 has it. */
  lemma ExactConservation(x: Endpoint, y: Endpoint)
    requires Paired(x, y) && Conserved(x, y) && Exact(x)
    ensures x.remoteWindow
         == y.localWindow + DataBytes(x.inbox.msgs, x.localId) + AdjustBytes(y.inbox.msgs, y.localId)
    ensures x.Now().Covered()
  {
    Named(Sized, (x.inbox.msgs, x.localId, x.remotePacket));
  }

  lemma CoveredIsSized(v: View)
    requires v.Covered()
    ensures AllSized(v.held.inbox, v.held.id, v.limit)
  {
    Named(Sized, (v.held.inbox, v.held.id, v.limit));
  }

  lemma StillSized(ms: seq<Msg>, more: seq<Msg>, id: u32, t: u32, limit: nat, wide: nat, x: seq<byte>)
    requires AllSized(ms, id, wide) && Carrying(more, id, t, limit, x) && limit <= wide
    ensures AllSized(ms + more, id, wide)
  {
    Named(Sized, (ms, id, wide));
    Named(Sized, (ms + more, id, wide));
    Named(IsCargo, Cargo(more, id, t, limit, x));
  }

  /** What a reader of stream `t` sees of data sent on stream `s`. */
  predicate Accepts(mode: Mode, t: u32, s: u32) { s == t || (mode.Merge? && t == 0) }

  datatype Growth = Growth(before: Held, after: Held, s: u32, x: seq<byte>)

  ghost predicate IsGrowth(g: Growth) {
    forall t: u32 :: g.after.Flow(t) == g.before.Flow(t) + if Accepts(g.before.mode, t, g.s) then g.x else []
  }

  /** `x` has been added, on stream `s`, to what is on its way to a reader. */
  ghost predicate Grows(a: Held, b: Held, s: u32, x: seq<byte>) { Holds(IsGrowth, Growth(a, b, s, x)) }

  lemma {:induction false} CargoSeen(ms: seq<Msg>, id: u32, s: u32, limit: nat, mode: Mode, t: u32)
    requires forall i | 0 <= i < |ms| && Carries(ms[i], id) :: ms[i] == DataMsg(id, s, ms[i].bytes)
    ensures Stream(Fresh(ms), Sel(mode, id, t)) == if Accepts(mode, t, s) then AllData(ms, id) else []
  {
    if ms != [] {
      var m, rest := ms[0], ms[1..];
      CargoSeen(rest, id, s, limit, mode, t);
      assert Fresh(ms)[0] == Packet(m, 0) && Fresh(ms)[1..] == Fresh(rest);
      if Carries(m, id) {
        assert Selected(mode, id, t, m) <==> Accepts(mode, t, s);
        assert m.bytes[0..] == m.bytes;
      }
    }
  }

  lemma FlowGrows(before: Held, added: seq<Msg>, t: u32)
    ensures before.(inbox := before.inbox + added).Flow(t)
         == before.Flow(t) + Stream(Fresh(added), Sel(before.mode, before.id, t))
  {
    assert before.packets + Fresh(before.inbox + added) == (before.packets + Fresh(before.inbox)) + Fresh(added);
    StreamAppend(before.packets + Fresh(before.inbox), Fresh(added), Sel(before.mode, before.id, t));
  }

  lemma GrowsWith(before: Held, added: seq<Msg>, s: u32, limit: nat, x: seq<byte>)
    requires Carrying(added, before.id, s, limit, x)
    ensures Grows(before, before.(inbox := before.inbox + added), s, x)
  {
    var after := before.(inbox := before.inbox + added);
    Named(IsCargo, Cargo(added, before.id, s, limit, x));
    forall t: u32
      ensures after.Flow(t) == before.Flow(t) + if Accepts(before.mode, t, s) then x else []
    {
      CargoSeen(added, before.id, s, limit, before.mode, t);
      FlowGrows(before, added, t);
    }
    Named(IsGrowth, Growth(before, after, s, x));
  }

  /** A stream with nothing queued and nothing in flight is empty. */
  lemma NothingLeft(h: Held, t: u32)
    ensures h.inbox == [] && Stream(h.packets, Sel(h.mode, h.id, t)) == [] ==> h.Flow(t) == []
  {
    if h.inbox == [] {
      assert h.packets + Fresh(h.inbox) == h.packets;
    }
  }

  /** Credit on its way to an end changes none of its streams. */
  lemma OnlyCredit(before: Held, more: seq<Msg>, limit: nat)
    requires OnlyAdjusts(more) && AllSized(before.inbox, before.id, limit)
    ensures AllSized(before.inbox + more, before.id, limit)
    ensures Grows(before, before.(inbox := before.inbox + more), 0, [])
  {
    CarryingNone(more, before.id, 0, 0);
    StillSized(before.inbox, more, before.id, 0, 0, limit, []);
    GrowsWith(before, more, 0, 0, []);
  }

  /**
   * One end reads: its window may grow, and what it adds for the other end is credit only. What it says, and what
   * arrives, is decided by what the transport has for it; and if it has dealt with the queue, rather than with a
   * failing transport or an adjustment put off before, and has room for more than it gets, and nothing is in flight,
   * then it has got all that was ever sent.
   */
  method ReadStep(x: Endpoint, y: Endpoint, t: u32, buf: array<byte>) returns (rc: int, ghost got: nat)
    requires Paired(x, y) && x.Valid() && y.Valid() && Conserved(x, y) && Conserved(y, x) && Exact(x) && Exact(y)
    modifies x, x.inbox, x.outbox, buf
    ensures x.Valid() && y.Valid() && Conserved(x, y) && Conserved(y, x)
    ensures x.faults >= old(x.faults) && got <= buf.Length && (rc >= 0 ==> rc == got)
    ensures Settles(x, t, buf.Length, old(Told(x.inbox.news, |x.inbox.msgs|)), old(x.readState == Jump1),
                    old(x.outbox.answers), got, rc)
    ensures x.inbox.msgs == old(x.inbox.msgs[Brought(x.inbox.news, |x.inbox.msgs|)..])
    ensures x.mode == old(x.mode) && x.write == old(x.write)
    ensures x.uncounted == 0 && Draws(old(x.Data()), x.Data(), t, buf[..got])
    ensures x.faults == old(x.faults) ==>
              && Exact(x) && Exact(y)
              && (x.remoteWindow <= old(x.remoteWindow) || x.remoteWindow < 900 * 65536)
    ensures Grows(old(y.Data()), y.Data(), 0, [])
  {
    ExactConservation(x, y);
    ghost var more: seq<Msg>, said: int, seen: View;
    ghost var before := x.Now();
    rc, got, more, said, seen := x.Read(t, buf);
    ReadInOrder(before, seen, x.Now(), t, buf[..got]);
    NothingLeft(x.Data(), t);
    OnlyCredit(old(y.Data()), more, y.remotePacket);
  }

  /** What a read comes to at an end in order. */
  lemma ReadInOrder(a: View, seen: View, b: View, t: u32, x: seq<byte>)
    requires Pumps(a, seen) && Copies(seen, b, t, x) && a.Covered() && a.Steady() && a.uncounted == 0
    ensures b.uncounted == 0 && Draws(a.held, b.held, t, x) && b.faults >= a.faults
    ensures AllSized(b.held.inbox, b.held.id, b.limit)
    ensures b.faults == a.faults ==>
              && b.Steady() && b.credit.forgotten == a.credit.forgotten
              && (b.window <= a.window || b.window < 900 * 65536)
  {
    PumpThenCopy(a, seen, b, t, x);
    ReadsMeans(a, b, t, x);
    CoveredIsSized(b);
  }

  /** How a read ends, and what it leaves. */
  ghost predicate Settles(x: Endpoint, t: u32, room: nat, said: int, jumped: bool, answers: seq<int>, got: nat,
                          rc: int)
    reads x`mode, x`packets, x`remoteEof, x`remoteClose, x.inbox
  {
    && x.Replies(t, room, said, jumped, answers, got, rc)
    && (!jumped && (said == 0 || said == PACKET_EAGAIN) && got < room && x.inbox.msgs == [] ==> x.Data().Flow(t) == [])
  }

  /** One end writes: its window shrinks by what it sends, and the bytes sent join the other end's unread stream. */
  method WriteStep(x: Endpoint, y: Endpoint, t: u32, buf: seq<byte>) returns (rc: int)
    requires Paired(x, y) && x.Valid() && y.Valid() && Conserved(x, y) && Conserved(y, x) && Exact(x) && Exact(y)
    requires x.Repeats(t, Capped(buf))
    modifies x, x.inbox, x.outbox
    ensures x.Valid() && y.Valid() && Conserved(x, y) && Conserved(y, x) && Exact(x) && Exact(y)
    ensures x.faults == old(x.faults) && x.mode == old(x.mode) && x.remoteWindow <= old(x.remoteWindow)
    ensures Holds(SameFlows, (old(x.Data()), x.Data()))
    ensures old(x.Progress()) <= x.write.wrote <= |buf| && x.write.wrote <= 32768
    ensures Grows(old(y.Data()), y.Data(), t, buf[old(x.Progress())..x.write.wrote])
    // It stops short of the 32K it attempts only with an empty window, or as the transport fails or puts it off.
    ensures if old(!x.write.sending && x.localClose) then rc == -26 && x.write.wrote == 0
            else if rc < 0 then x.outbox.last == rc
            else rc == x.write.wrote - old(x.Progress())
                 && (x.write.wrote < |buf| && x.write.wrote < 32768 ==> x.localWindow == 0)
  {
    ExactConservation(x, y);
    ghost var added: seq<Msg>;
    ghost var before := x.Now();
    rc, added := x.Write(t, buf);
    PumpsMeans(before, x.Now());
    CoveredIsSized(x.Now());
    ghost var sent := buf[old(x.Progress())..x.write.wrote];
    StillSized(old(y.inbox.msgs), added, y.localId, t, x.localPacket, y.remotePacket, sent);
    GrowsWith(old(y.Data()), added, t, x.localPacket, sent);
  }

  // ----- runs

  /** Both ends in order, and credit conserved between them. */
  ghost predicate InOrder(a: Endpoint, b: Endpoint)
    reads a, b, a.inbox, a.outbox, b.inbox, b.outbox
  {
    Paired(a, b) && a.Valid() && b.Valid() && Conserved(a, b) && Conserved(b, a) && Exact(a) && Exact(b)
  }

  function Ceiling(window: nat): nat { if window > 900 * 65536 then window else 900 * 65536 }

  /** Arguments for a write: any, unless one is in progress and has to be repeated. */
  method Arguments(x: Endpoint) returns (t: u32, data: seq<byte>)
    requires x.Valid()
    ensures x.Repeats(t, Capped(data))
  {
    t, data := *, *;
    if x.write.sending {
      t, data := x.write.t, x.write.buf;
      Named(Due, (x.write, x.remoteId, x.localPacket));
    }
  }

  /** The reader's end writes. */
  method ReaderWrites(a: Endpoint, b: Endpoint, t: u32)
    requires InOrder(a, b)
    modifies a, a.inbox, a.outbox
    ensures InOrder(a, b) && a.remoteWindow <= Ceiling(old(a.remoteWindow)) && a.mode == old(a.mode)
    ensures a.Data().Flow(t) == old(a.Data().Flow(t))
  {
    var s, data := Arguments(a);
    var rc := WriteStep(a, b, s, data);
    Named(SameFlows, (old(a.Data()), a.Data()));
  }

  /**
   * The reader's end reads; `got` is what it reads from stream `t`. It may read any stream, but one that merges streams
   * none whose data it also reads as part of stream `t`, or `t` as part of.
   */
  method ReaderReads(a: Endpoint, b: Endpoint, t: u32) returns (fault: bool, ghost got: seq<byte>)
    requires InOrder(a, b)
    modifies a, a.inbox, a.outbox
    ensures a.Valid() && b.Valid() && Conserved(a, b) && Conserved(b, a) && a.mode == old(a.mode)
    ensures !fault ==> InOrder(a, b) && a.remoteWindow <= Ceiling(old(a.remoteWindow))
    ensures got + a.Data().Flow(t) == old(a.Data().Flow(t))
  {
    var s: u32, room: nat := *, *;
    if !Separate(a.mode, s, t) {
      s := t;
    }
    var buf, faults := new byte[room], a.faults;
    var rc: int;
    ghost var n: nat;
    rc, n := ReadStep(a, b, s, buf);
    fault := a.faults != faults;
    DrawsMeans(old(a.Data()), a.Data(), s, buf[..n]);
    got := if s == t then buf[..n] else [];
    assert [] + a.Data().Flow(t) == a.Data().Flow(t);
  }

  /** The writer's end reads or writes; `sent` is what it sends that a reader of stream `t` will see. */
  method WriterWrites(b: Endpoint, a: Endpoint, t: u32) returns (ghost sent: seq<byte>)
    requires InOrder(a, b)
    modifies b, b.inbox, b.outbox
    ensures InOrder(a, b) && b.remoteWindow <= Ceiling(old(b.remoteWindow)) && b.mode == old(b.mode)
    ensures a.Data().Flow(t) == old(a.Data().Flow(t)) + sent
  {
    var s, data := Arguments(b);
    ghost var at := b.Progress();
    var rc := WriteStep(b, a, s, data);
    ghost var x := data[at..b.write.wrote];
    Named(IsGrowth, Growth(old(a.Data()), a.Data(), s, x));
    sent := if Accepts(a.mode, t, s) then x else [];
  }

  method WriterReads(b: Endpoint, a: Endpoint, t: u32) returns (fault: bool)
    requires InOrder(a, b)
    modifies b, b.inbox, b.outbox
    ensures a.Valid() && b.Valid() && Conserved(a, b) && Conserved(b, a) && b.mode == old(b.mode)
    ensures !fault ==> InOrder(a, b) && b.remoteWindow <= Ceiling(old(b.remoteWindow))
    ensures a.Data().Flow(t) == old(a.Data().Flow(t))
  {
    var s: u32, room: nat := *, *;
    var buf, faults := new byte[room], b.faults;
    var rc: int;
    ghost var n: nat;
    rc, n := ReadStep(b, a, s, buf);
    fault := b.faults != faults;
    Named(IsGrowth, Growth(old(a.Data()), a.Data(), 0, []));
    assert a.Data().Flow(t) == old(a.Data().Flow(t)) + [];
  }

  /** One operation at either end. */
  method Step(a: Endpoint, b: Endpoint, t: u32) returns (fault: bool, ghost got: seq<byte>, ghost put: seq<byte>)
    requires InOrder(a, b)
    modifies a, b, a.inbox, a.outbox
    ensures Conserved(a, b) && Conserved(b, a)
    ensures !fault ==> InOrder(a, b)
    ensures !fault ==> a.remoteWindow <= Ceiling(old(a.remoteWindow)) && b.remoteWindow <= Ceiling(old(b.remoteWindow))
    ensures got + a.Data().Flow(t) == old(a.Data().Flow(t)) + put
  {
    fault, got, put := false, [], [];
    var choice: nat := *;
    ghost var flow := a.Data().Flow(t);
    assert [] + flow == flow + [];
    if choice == 0 {
      ReaderWrites(a, b, t);
    } else if choice == 1 {
      fault, got := ReaderReads(a, b, t);
      assert flow + [] == flow;
    } else if choice == 2 {
      put := WriterWrites(b, a, t);
      assert [] + (flow + put) == flow + put;
    } else {
      fault := WriterReads(b, a, t);
    }
  }

  /** The logs, one step on. */
  lemma LogsGrow(read: seq<byte>, flow: seq<byte>, start: seq<byte>, sent: seq<byte>, x: seq<byte>, flow': seq<byte>,
                 y: seq<byte>)
    requires read + flow == start + sent && x + flow' == flow + y
    ensures (read + x) + flow' == start + (sent + y)
  {
    Regroup(read, x, flow');
    Regroup(read, flow, y);
    Regroup(start, sent, y);
  }

  /**
   * Any run of reads and writes at both ends, of any lengths, with packets taken off the wire and sends put off
   * whenever the transport likes. Until the sending of a window adjustment fails: each window equals what the other
   * end may send plus the data and the credit in flight, so that no data exceeds it; neither window rises above 900
   * default windows, unless it began there; and what `a` has read from stream `t`, followed by what it has not read
   * yet and what is in flight, is what `b` has sent there.
   */
  method Run(a: Endpoint, b: Endpoint, t: u32, steps: nat)
    returns (fault: bool, ghost read: seq<byte>, ghost sent: seq<byte>)
    requires InOrder(a, b)
    modifies a, b, a.inbox, a.outbox
    ensures Conserved(a, b) && Conserved(b, a)
    ensures !fault ==>
              && InOrder(a, b) && a.uncounted == 0 && b.uncounted == 0
              && a.remoteWindow ==
                  b.localWindow + DataBytes(a.inbox.msgs, a.localId) + AdjustBytes(b.inbox.msgs, b.localId)
              && a.remoteWindow <= Ceiling(old(a.remoteWindow)) && b.remoteWindow <= Ceiling(old(b.remoteWindow))
    ensures read + a.Data().Flow(t) == old(a.Data().Flow(t)) + sent
  {
    fault, read, sent := false, [], [];
    ghost var start := a.Data().Flow(t);
    assert [] + start == start + [];
    for i := 0 to steps
      invariant !fault && InOrder(a, b)
      invariant a.remoteWindow <= Ceiling(old(a.remoteWindow)) && b.remoteWindow <= Ceiling(old(b.remoteWindow))
      invariant read + a.Data().Flow(t) == start + sent
    {
      ghost var x, y, flow := [], [], a.Data().Flow(t);
      fault, x, y := Step(a, b, t);
      LogsGrow(read, flow, start, sent, x, a.Data().Flow(t), y);
      read, sent := read + x, sent + y;
      if fault {
        return;
      }
    }
    ExactConservation(a, b);
  }

  /** Opens a channel between two new ends: each window starts as the credit the other end was given. */
  method Open(idA: u32, idB: u32, othersA: set<u32>, othersB: set<u32>, windowA: nat, windowB: nat,
              packetA: nat, packetB: nat, mode: Mode) returns (a: Endpoint, b: Endpoint)
    requires packetA > 0 && packetB > 0 && !mode.Ignore?
    ensures InOrder(a, b) && fresh(a) && fresh(b) && fresh(a.inbox) && fresh(a.outbox)
    ensures a.remoteWindow == windowA && b.remoteWindow == windowB && a.mode == mode
    ensures forall t: u32 :: a.Data().Flow(t) == []
  {
    var answersA: seq<int>, answersB: seq<int>, newsA: seq<int>, newsB: seq<int> := *, *, *, *;
    var toA := new Link(answersB, newsA);
    var toB := new Link(answersA, newsB);
    a := new Endpoint(idA, idB, othersA, toA, toB, windowB, packetB, windowA, packetA, mode);
    b := new Endpoint(idB, idA, othersB, toB, toA, windowA, packetA, windowB, packetB, Normal);
    Named(Sized, (toA.msgs, idA, packetA));
    Named(Sized, (toB.msgs, idB, packetB));
  }

  // ----- runs in which anything may happen

  /** Both ends as they are after any calls whatever. */
  ghost predicate Joined(a: Endpoint, b: Endpoint)
    reads a, b, a.inbox, a.outbox, b.inbox, b.outbox
  {
    Paired(a, b) && a.Valid() && b.Valid() && Conserved(a, b) && Conserved(b, a)
  }

  /**
   * Any operation at one end: reads, writes, direct calls to the window adjuster, and changes of the mode, however
   * sends fail and whatever is ignored or cut off.
   */
  method AnyStep(x: Endpoint, y: Endpoint)
    requires Joined(x, y)
    modifies x, x.inbox, x.outbox
    ensures Joined(x, y)
  {
    var choice: nat := *;
    var rc: int;
    ghost var more: seq<Msg>;
    if choice == 0 {
      var t: u32, room: nat := *, *;
      var buf := new byte[room];
      ghost var got: nat, said: int, seen: View;
      rc, got, more, said, seen := x.Read(t, buf);
    } else if choice == 1 {
      var t, data := Arguments(x);
      rc, more := x.Write(t, data);
    } else if choice == 2 {
      var adjustment: nat, force: bool := *, *;
      rc, more := x.AdjustWindow(adjustment, force);
    } else {
      x.mode := *;
    }
  }

  /** After any run credit is conserved, up to the bytes received uncharged and the credit announced uncredited. */
  method AnyRun(a: Endpoint, b: Endpoint, steps: nat)
    requires Joined(a, b)
    modifies a, b, a.inbox, a.outbox
    ensures Joined(a, b)
  {
    for i := 0 to steps
      invariant Joined(a, b)
    {
      var first: bool := *;
      if first {
        AnyStep(a, b);
      } else {
        AnyStep(b, a);
      }
    }
  }

  // ----- which calls keep the law of section 5.2

  /** What x's window says is what y may still send, and what is in flight either way. */
  ghost predicate Lawful(x: Endpoint, y: Endpoint)
    reads x`remoteWindow, y`localWindow, x.inbox, y.inbox
  {
    x.remoteWindow == y.localWindow + DataBytes(x.inbox.msgs, x.localId) + AdjustBytes(y.inbox.msgs, y.localId)
  }

  lemma LawfulMeans(x: Endpoint, y: Endpoint)
    requires Paired(x, y) && Conserved(x, y)
    ensures Lawful(x, y) <==> x.uncounted == x.forgotten
  {
  }

  /** Whatever the transport says, the adjustment credits what it announces, or is only queued. */
  predicate Credits(x: Endpoint, adjustment: nat, force: bool)
    reads x`adjusting, x`announced, x`adjustQueue
  {
    x.Uncredited(adjustment) == 0 || (!x.adjusting && Queues(adjustment, force, x.adjustQueue))
  }

  /** An adjustment breaks the law exactly when it is going to be sent and not to credit what it announces. */
  method AdjustStep(x: Endpoint, y: Endpoint, adjustment: nat, force: bool) returns (rc: int)
    requires Joined(x, y) && Lawful(x, y)
    modifies x, x.outbox
    ensures Joined(x, y)
    ensures Lawful(x, y) <==> old(x.Excess(adjustment, force)) == 0
  {
    LawfulMeans(x, y);
    ghost var more: seq<Msg>;
    rc, more := x.AdjustWindow(adjustment, force);
    LawfulMeans(x, y);
  }

  /**
   * A packet off the wire breaks it exactly when the bytes it carries that are not charged, all of them if it is to be
   * ignored, are not as many as the adjustment that refunds them announces and does not credit.
   */
  method DeliverStep(x: Endpoint, y: Endpoint) returns (rc: int)
    requires Joined(x, y) && Lawful(x, y) && !x.refunding && x.inbox.msgs != []
    modifies x, x.inbox, x.outbox
    ensures Joined(x, y)
    ensures Lawful(x, y) <==> old(x.Missed(x.inbox.msgs[0])) == old(x.ExcessOf(x.inbox.msgs[0]))
  {
    LawfulMeans(x, y);
    ghost var more: seq<Msg>;
    ghost var before := x.Now();
    rc, more := x.Deliver();
    PumpsMeans(before, x.Now());
    LawfulMeans(x, y);
  }

  /**
   * As long as the law holds and the peer keeps to the packet size, only ignored data breaks it: a packet with any
   * does, when its refund credits what it announces, and no other packet does.
   */
  lemma OnlyIgnoredBreaks(x: Endpoint, y: Endpoint)
    requires Joined(x, y) && Lawful(x, y) && x.inbox.msgs != [] && AllSized(x.inbox.msgs, x.localId, x.remotePacket)
    ensures var m := x.inbox.msgs[0];
            if Ignored(x.mode, x.localId, m) then
              Credits(x, |m.bytes|, false) ==> (x.Missed(m) == x.ExcessOf(m) <==> m.bytes == [])
            else
              x.Missed(m) == x.ExcessOf(m)
  {
    var m := x.inbox.msgs[0];
    Named(Sized, (x.inbox.msgs, x.localId, x.remotePacket));
    assert [m] + x.inbox.msgs[1..] == x.inbox.msgs;
    x.StillCovered(m, x.inbox.msgs[1..], x.remoteWindow, 0);
  }

  /** An end that has charged all it received and credited all it announced; its adjustments may be in any state. */
  ghost predicate Settled(x: Endpoint)
    reads x`refunding, x`forgotten, x`uncounted, x.inbox
  {
    x.uncounted == 0 && x.forgotten == 0 && !x.refunding && AllSized(x.inbox.msgs, x.localId, x.remotePacket)
  }

  /** Two such ends. */
  ghost predicate BothSettled(a: Endpoint, b: Endpoint)
    reads a, b, a.inbox, a.outbox, b.inbox, b.outbox
  {
    Joined(a, b) && Settled(a) && Settled(b)
  }

  lemma SettledIsLawful(x: Endpoint, y: Endpoint)
    requires Paired(x, y) && Conserved(x, y) && Settled(x)
    ensures Lawful(x, y) && (x.Data().Spared() ==> x.Now().Covered())
  {
    Named(Sized, (x.inbox.msgs, x.localId, x.remotePacket));
  }

  /** New ends, and any in order, are such ends. */
  lemma InOrderIsSettled(a: Endpoint, b: Endpoint)
    requires InOrder(a, b)
    ensures BothSettled(a, b)
  {
  }

  /** A read; `got` is what it reads from stream `t`. As above it reads no stream that shares data with that one. */
  method SettledRead(x: Endpoint, y: Endpoint, t: u32) returns (ghost got: seq<byte>)
    requires BothSettled(x, y) && x.Data().Spared() && Credits(x, WINDOW_STEP, false)
    modifies x, x.inbox, x.outbox
    ensures BothSettled(x, y)
    ensures got + x.Data().Flow(t) == old(x.Data().Flow(t)) && y.Data().Flow(t) == old(y.Data().Flow(t))
  {
    SettledIsLawful(x, y);
    var s: u32, room: nat := *, *;
    if !Separate(x.mode, s, t) {
      s := t;
    }
    var buf := new byte[room];
    var rc: int;
    ghost var n: nat, more: seq<Msg>, said: int, seen: View;
    ghost var before := x.Now();
    rc, n, more, said, seen := x.Read(s, buf);
    got := ReadSettled(before, seen, x.Now(), s, buf[..n], t);
    OnlyCredit(old(y.Data()), more, y.remotePacket);
    Named(IsGrowth, Growth(old(y.Data()), y.Data(), 0, []));
    assert y.Data().Flow(t) == old(y.Data().Flow(t)) + [];
  }

  /** What a read of stream `s` comes to at an end that has settled its accounts, for a reader of stream `t`. */
  lemma ReadSettled(a: View, seen: View, b: View, s: u32, x: seq<byte>, t: u32) returns (got: seq<byte>)
    requires Pumps(a, seen) && Copies(seen, b, s, x) && a.Covered() && a.uncounted == 0 && !a.refunding
    requires a.credit.Honest(WINDOW_STEP) && (s == t || Separate(a.held.mode, s, t))
    ensures b.uncounted == 0 && !b.refunding && b.credit.forgotten == a.credit.forgotten
    ensures AllSized(b.held.inbox, b.held.id, b.limit)
    ensures got + b.held.Flow(t) == a.held.Flow(t)
  {
    PumpThenCopy(a, seen, b, s, x);
    ReadsMeans(a, b, s, x);
    CoveredIsSized(b);
    DrawsMeans(a.held, b.held, s, x);
    got := if s == t then x else [];
    assert [] + b.held.Flow(t) == b.held.Flow(t);
  }

  /** A write; `put` is what it sends that a reader of stream `t` will see. */
  method SettledWrite(x: Endpoint, y: Endpoint, t: u32) returns (ghost put: seq<byte>)
    requires BothSettled(x, y) && x.Data().Spared()
    modifies x, x.inbox, x.outbox
    ensures BothSettled(x, y)
    ensures x.Data().Flow(t) == old(x.Data().Flow(t)) && y.Data().Flow(t) == old(y.Data().Flow(t)) + put
  {
    SettledIsLawful(x, y);
    var s, data := Arguments(x);
    var rc: int;
    ghost var added: seq<Msg>;
    ghost var before, at := x.Now(), x.Progress();
    rc, added := x.Write(s, data);
    PumpsMeans(before, x.Now());
    CoveredIsSized(x.Now());
    Named(SameFlows, (before.held, x.Data()));
    ghost var sent := data[at..x.write.wrote];
    StillSized(old(y.inbox.msgs), added, y.localId, s, x.localPacket, y.remotePacket, sent);
    put := CargoFlows(old(y.Data()), added, s, x.localPacket, sent, t);
  }

  lemma CargoFlows(before: Held, added: seq<Msg>, s: u32, limit: nat, x: seq<byte>, t: u32) returns (put: seq<byte>)
    requires Carrying(added, before.id, s, limit, x)
    ensures before.(inbox := before.inbox + added).Flow(t) == before.Flow(t) + put
  {
    var after := before.(inbox := before.inbox + added);
    GrowsWith(before, added, s, limit, x);
    Named(IsGrowth, Growth(before, after, s, x));
    put := if Accepts(before.mode, t, s) then x else [];
  }

  /** A direct adjustment. */
  method SettledAdjust(x: Endpoint, y: Endpoint, adjustment: nat, force: bool, ghost t: u32)
    requires BothSettled(x, y) && Credits(x, adjustment, force)
    modifies x, x.outbox
    ensures BothSettled(x, y)
    ensures x.Data().Flow(t) == old(x.Data().Flow(t)) && y.Data().Flow(t) == old(y.Data().Flow(t))
  {
    var rc: int;
    ghost var more: seq<Msg>;
    rc, more := x.AdjustWindow(adjustment, force);
    OnlyCredit(old(y.Data()), more, y.remotePacket);
    Named(IsGrowth, Growth(old(y.Data()), y.Data(), 0, []));
    assert y.Data().Flow(t) == old(y.Data().Flow(t)) + [];
  }

  lemma {:induction false} SameSelection(ps: seq<Packet>, a: Mode, b: Mode, id: u32, t: u32)
    requires a.Merge? == b.Merge?
    ensures Stream(ps, Sel(a, id, t)) == Stream(ps, Sel(b, id, t))
  {
    if ps != [] {
      SameSelection(ps[1..], a, b, id, t);
    }
  }

  /** A change of the mode; `switched` tells whether streams have been merged or taken apart by it. */
  method SettledMode(x: Endpoint, y: Endpoint, mode: Mode, t: u32) returns (switched: bool)
    requires BothSettled(x, y)
    modifies x`mode
    ensures BothSettled(x, y) && (!switched ==> x.Data().Flow(t) == old(x.Data().Flow(t)))
  {
    switched := x.mode.Merge? != mode.Merge?;
    if !switched {
      SameSelection(x.packets + Fresh(x.inbox.msgs), x.mode, mode, x.localId, t);
    }
    x.mode := mode;
  }

  /** One call at one end, if it is one that the law allows. */
  method SettledStep(x: Endpoint, y: Endpoint, t: u32)
    returns (switched: bool, ghost got: seq<byte>, ghost put: seq<byte>)
    requires BothSettled(x, y)
    modifies x, x.inbox, x.outbox
    ensures BothSettled(x, y)
    ensures !switched ==> got + x.Data().Flow(t) == old(x.Data().Flow(t))
    ensures y.Data().Flow(t) == old(y.Data().Flow(t)) + put
  {
    switched, got, put := false, [], [];
    ghost var flow, other := x.Data().Flow(t), y.Data().Flow(t);
    assert [] + flow == flow && other + [] == other;
    var choice: nat, adjustment: nat, force: bool, mode: Mode := *, *, *, *;
    if choice == 0 && x.Data().Spared() && Credits(x, WINDOW_STEP, false) {
      got := SettledRead(x, y, t);
    } else if choice == 1 && x.Data().Spared() {
      put := SettledWrite(x, y, t);
    } else if choice == 2 && Credits(x, adjustment, force) {
      SettledAdjust(x, y, adjustment, force, t);
    } else {
      switched := SettledMode(x, y, mode, t);
    }
  }

  /**
   * Any run of reads, writes, direct adjustments and changes of the mode, at both ends and however sends fail, in
   * which no end takes packets off the wire while extended data is in flight that it ignores, and each adjustment
   * credits what it announces: one put off is repeated with the amount announced, and none exceeds 32 bits. The law of
   * section 5.2 holds throughout; and unless streams are merged or taken apart on the way, what `a` has read from
   * stream `t`, followed by what it has not read yet and what is in flight, is what `b` has sent there.
   */
  method SettledRun(a: Endpoint, b: Endpoint, t: u32, steps: nat)
    returns (switched: bool, ghost read: seq<byte>, ghost sent: seq<byte>)
    requires BothSettled(a, b)
    modifies a, b, a.inbox, a.outbox
    ensures BothSettled(a, b) && Lawful(a, b) && Lawful(b, a)
    ensures !switched ==> read + a.Data().Flow(t) == old(a.Data().Flow(t)) + sent
  {
    switched, read, sent := false, [], [];
    ghost var start := a.Data().Flow(t);
    assert [] + start == start + [];
    for i := 0 to steps
      invariant BothSettled(a, b)
      invariant !switched ==> read + a.Data().Flow(t) == start + sent
    {
      var change: bool;
      ghost var x, y, flow := [], [], a.Data().Flow(t);
      change, x, y := SettledTurn(a, b, t);
      switched := switched || change;
      if !switched {
        LogsGrow(read, flow, start, sent, x, a.Data().Flow(t), y);
      }
      read, sent := read + x, sent + y;
    }
    SettledIsLawful(a, b);
    SettledIsLawful(b, a);
  }

  /** One call at either end, as a reader at `a` sees it. */
  method SettledTurn(a: Endpoint, b: Endpoint, t: u32)
    returns (switched: bool, ghost x: seq<byte>, ghost y: seq<byte>)
    requires BothSettled(a, b)
    modifies a, b, a.inbox, a.outbox
    ensures BothSettled(a, b)
    ensures !switched ==> x + a.Data().Flow(t) == old(a.Data().Flow(t)) + y
  {
    var first: bool := *;
    ghost var flow, rest := a.Data().Flow(t), [];
    assert flow + [] == flow;
    switched, x, y := false, [], [];
    if first {
      switched, x, rest := SettledStep(a, b, t);
    } else {
      var other: bool;
      other, rest, y := SettledStep(b, a, t);
      assert [] + a.Data().Flow(t) == a.Data().Flow(t);
    }
  }
}
