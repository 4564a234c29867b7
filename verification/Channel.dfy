/** One end of a channel: its windows, its share of the brigade, and the operations that move bytes and credit. */
module Channel {
  import opened Bytes
  import opened Messages
  import opened Brigade
  import opened Naming
  import opened Views

  const PACKET_EAGAIN := -37
  const ERROR_CHANNEL_CLOSED := -26
  const MINADJUST := 1024
  const WRITE_MAX := 32768

  datatype ReadState = Idle | Created | Jump1

  /** The data for channel `id` in a run of messages. */
  function AllData(ms: seq<Msg>, id: u32): (x: seq<byte>) {
    if ms == [] then [] else (if Carries(ms[0], id) then ms[0].bytes else []) + AllData(ms[1..], id)
  }

  lemma {:induction false} AllDataAppend(ms: seq<Msg>, more: seq<Msg>, id: u32)
    ensures AllData(ms + more, id) == AllData(ms, id) + AllData(more, id)
  {
    if ms == [] {
      assert ms + more == more;
    } else {
      AllDataAppend(ms[1..], more, id);
      assert (ms + more)[1..] == ms[1..] + more;
      Regroup(if Carries(ms[0], id) then ms[0].bytes else [], AllData(ms[1..], id), AllData(more, id));
    }
  }

  /** The message that channel_write builds. */
  function DataMsg(id: u32, t: u32, x: seq<byte>): (m: Msg) {
    if t != 0 then Extended(id, t, x) else Data(id, x)
  }

  function Capped(buf: seq<byte>): (x: seq<byte>) {
    if |buf| > WRITE_MAX then buf[..WRITE_MAX] else buf
  }

  predicate OnlyAdjusts(ms: seq<Msg>) { forall i | 0 <= i < |ms| :: ms[i].Adjust? }

  lemma MoreAdjusts(ms: seq<Msg>, more: seq<Msg>, n: seq<Msg>)
    requires OnlyAdjusts(more) && OnlyAdjusts(n)
    ensures OnlyAdjusts(more + n) && (ms + more) + n == ms + (more + n)
  {
  }

  datatype Cargo = Cargo(ms: seq<Msg>, id: u32, t: u32, limit: nat, x: seq<byte>)

  /** `ms` carries `x` on stream `t` of channel `id`, in packets within the size limit, and no other data for it. */
  ghost predicate IsCargo(c: Cargo) {
    && AllData(c.ms, c.id) == c.x
    && forall i | 0 <= i < |c.ms| && Carries(c.ms[i], c.id) ::
         c.ms[i] == DataMsg(c.id, c.t, c.ms[i].bytes) && 1 <= |c.ms[i].bytes| <= c.limit
  }

  ghost predicate Carrying(ms: seq<Msg>, id: u32, t: u32, limit: nat, x: seq<byte>) {
    Holds(IsCargo, Cargo(ms, id, t, limit, x))
  }

  lemma CarryingMore(ms: seq<Msg>, more: seq<Msg>, id: u32, t: u32, limit: nat, x: seq<byte>, y: seq<byte>)
    requires Carrying(ms, id, t, limit, x) && Carrying(more, id, t, limit, y)
    ensures Carrying(ms + more, id, t, limit, x + y)
  {
    AllDataAppend(ms, more, id);
    Named(IsCargo, Cargo(ms, id, t, limit, x));
    Named(IsCargo, Cargo(more, id, t, limit, y));
    Named(IsCargo, Cargo(ms + more, id, t, limit, x + y));
  }

  lemma CarryingOne(id: u32, t: u32, limit: nat, x: seq<byte>)
    requires 1 <= |x| <= limit
    ensures Carrying([DataMsg(id, t, x)], id, t, limit, x)
  {
    var ms := [DataMsg(id, t, x)];
    assert ms[1..] == [] && AllData([], id) == [];
    assert AllData(ms, id) == x + [] == x;
    Named(IsCargo, Cargo(ms, id, t, limit, x));
  }

  lemma CarryingNone(ms: seq<Msg>, id: u32, t: u32, limit: nat)
    requires OnlyAdjusts(ms)
    ensures Carrying(ms, id, t, limit, [])
  {
    AdjustsCarryNothing(ms, id);
    Named(IsCargo, Cargo(ms, id, t, limit, []));
  }

  /**
   * The channel's write_* fields. `sending`: write_state is created, so that `packet` has been built, with the next `n`
   * bytes of `buf`, and not yet sent; `wrote` bytes went before it. `t` and `buf` are the arguments of the write.
   */
  datatype Job = Job(sending: bool, packet: Msg, wrote: nat, n: nat, t: u32, buf: seq<byte>)

  /** The packet waiting is the one that is due, for channel `id` and within the packet size `limit`. */
  ghost predicate Due(p: (Job, u32, nat)) {
    var (j, id, limit) := p;
    j.sending ==>
      && 0 < j.n <= limit && j.wrote + j.n <= |j.buf| <= WRITE_MAX
      && j.packet == DataMsg(id, j.t, j.buf[j.wrote..j.wrote + j.n])
  }

  lemma {:induction false} AdjustsCarryNothing(ms: seq<Msg>, id: u32)
    requires OnlyAdjusts(ms)
    ensures AllData(ms, id) == []
  {
    if ms != [] {
      AdjustsCarryNothing(ms[1..], id);
    }
  }

  /** What a transport that is going to answer so says to the next send: sent, put off, or failed. */
  function Next(answers: seq<int>): (rc: int)
    ensures rc <= 0
  {
    if answers == [] || answers[0] > 0 then PACKET_EAGAIN else answers[0]
  }

  function Rest(answers: seq<int>): (more: seq<int>) { if answers == [] then [] else answers[1..] }

  /** The transport is going to put off the next send. */
  predicate PutOff(answers: seq<int>) { Next(answers) == PACKET_EAGAIN }

  /** Halfway through a loop over the packets that a transport has: what is left, and how the loop will end. */
  predicate Pumping(rc: int, now: seq<int>, left: seq<Msg>, news: seq<int>, msgs: seq<Msg>) {
    && |left| <= |msgs| && left == msgs[|msgs| - |left|..]
    && Told(news, |msgs|) == (if rc > 0 then Told(now, |left|) else rc)
    && Brought(news, |msgs|) == |msgs| - |left| + if rc > 0 then Brought(now, |left|) else 0
  }

  lemma PumpingOn(rc: int, now: seq<int>, left: seq<Msg>, news: seq<int>, msgs: seq<Msg>)
    requires Pumping(1, now, left, news, msgs)
    requires if Brings(now) && left != [] then rc > 0 else rc == Next(now)
    ensures Pumping(rc, Rest(now), if rc > 0 then left[1..] else left, news, msgs)
  {
  }

  predicate Brings(news: seq<int>) { news != [] && news[0] > 0 }

  /**
   * What a transport that is going to hear `news` says in the end to a reader of all it has, `waiting` packets: a
   * positive answer is a packet, if there is one.
   */
  function Told(news: seq<int>, waiting: nat): (rc: int)
    ensures rc <= 0
    decreases |news|
  {
    if Brings(news) && waiting > 0 then Told(news[1..], waiting - 1) else Next(news)
  }

  /** How many packets the reader gets. */
  function Brought(news: seq<int>, waiting: nat): (n: nat)
    ensures n <= waiting
    decreases |news|
  {
    if Brings(news) && waiting > 0 then 1 + Brought(news[1..], waiting - 1) else 0
  }

  /** Messages on their way to the other end, oldest first. */
  class Link {
    var msgs: seq<Msg>

    // What the transport will say to the next sends, at one end, and to the next reads, at the other, before it says
    // EAGAIN to all others.
    var answers: seq<int>
    var news: seq<int>

    // How many sends the transport has answered, and what it said to the last.
    ghost var asked: nat
    ghost var last: int

    constructor (answers: seq<int>, news: seq<int>)
      ensures msgs == [] && this.answers == answers && this.news == news
    {
      msgs, this.answers, this.news := [], answers, news;
      asked, last := 0, 0;
    }

    /** The next send has been answered. */
    twostate predicate Answers(rc: int)
      reads this
    {
      rc == Next(old(answers)) && answers == Rest(old(answers)) && asked == old(asked) + 1 && last == rc
    }

    /** _libssh2_transport_write of one payload: all of it is on its way, or none of it yet. */
    method Transmit(m: Msg) returns (rc: int)
      modifies this
      ensures Answers(rc) && news == old(news)
      ensures msgs == if rc == 0 then old(msgs) + [m] else old(msgs)
    {
      rc, answers := Next(answers), Rest(answers);
      asked, last := asked + 1, rc;
      if rc == 0 {
        msgs := msgs + [m];
      }
    }

    /** Whether the transport has a packet: a positive answer, if it does. */
    method Poll() returns (heard: int)
      modifies this`news
      ensures heard == if Brings(old(news)) && msgs != [] then 1 else Next(old(news))
      ensures news == Rest(old(news))
    {
      heard := if Brings(news) && msgs != [] then 1 else Next(news);
      news := Rest(news);
    }

    method Take() returns (m: Msg)
      requires msgs != []
      modifies this`msgs
      ensures old(msgs) == [m] + msgs
    {
      m, msgs := msgs[0], msgs[1..];
    }
  }

  class Endpoint {
    const localId: u32
    const remoteId: u32
    const others: set<u32>   // the session's other channels
    const inbox: Link
    const outbox: Link

    // local: this end as the source of data
    var localWindow: nat
    const localPacket: nat
    var localClose: bool

    // remote: the other end as the source of data
    var remoteWindow: nat
    const remotePacket: nat
    var remoteEof: bool
    var remoteClose: bool
    var mode: Mode

    var adjustQueue: nat
    var adjusting: bool    // adjust_state is created: `announced` has been built and not yet sent
    var announced: u32

    var readState: ReadState
    var refunding: bool    // packAdd_state is jump1
    var refund: nat

    var write: Job

    var packets: seq<Packet>

    // Credit announced to the other end and not added to the window; data received and not deducted from it.
    ghost var forgotten: int
    ghost var uncounted: nat

    // Window adjustments whose sending failed: a count kept to tell such runs apart, and read by no operation.
    var faults: nat

    constructor (localId: u32, remoteId: u32, others: set<u32>, inbox: Link, outbox: Link,
                 localWindow: nat, localPacket: nat, remoteWindow: nat, remotePacket: nat, mode: Mode)
      requires inbox != outbox
      ensures this.localId == localId && this.remoteId == remoteId && this.others == others
      ensures this.inbox == inbox && this.outbox == outbox
      ensures this.localWindow == localWindow && this.localPacket == localPacket
      ensures this.remoteWindow == remoteWindow && this.remotePacket == remotePacket && this.mode == mode
      ensures Valid() && packets == [] && forgotten == 0 && uncounted == 0 && faults == 0
      ensures !adjusting && adjustQueue == 0 && !write.sending && !refunding && readState == Idle
    {
      this.localId, this.remoteId, this.others, this.inbox, this.outbox := localId, remoteId, others, inbox, outbox;
      this.localWindow, this.localPacket, this.localClose := localWindow, localPacket, false;
      this.remoteWindow, this.remotePacket := remoteWindow, remotePacket;
      remoteEof, remoteClose := false, false;
      this.mode, adjustQueue, adjusting, announced, readState := mode, 0, false, 0, Idle;
      refunding, refund, write := false, 0, Job(false, Other([]), 0, 0, 0, []);
      packets, forgotten, uncounted, faults := [], 0, 0, 0;
      new;
      Named(Due, (write, this.remoteId, this.localPacket));
    }

    ghost predicate Valid()
      reads this`write, this`localWindow
    {
      inbox != outbox && Holds(Due, (write, remoteId, localPacket)) && (write.sending ==> write.n <= localWindow)
    }

    // ----- the two ledgers

    /** What the window says the other end may still start sending: the window less what is in flight either way. */
    ghost function Owed(): int
      reads this`remoteWindow, this`uncounted, this`forgotten, inbox, outbox
    {
      remoteWindow - DataBytes(inbox.msgs, localId) - AdjustBytes(outbox.msgs, remoteId) - uncounted + forgotten
    }

    /** Credit ever received and not yet spent on data that has arrived. */
    ghost function Funds(): int
      reads this`localWindow, inbox, outbox
    {
      localWindow + DataBytes(outbox.msgs, remoteId) + AdjustBytes(inbox.msgs, localId)
    }

    ghost function Ledgers(): (int, int)
      reads this`remoteWindow, this`uncounted, this`forgotten, this`localWindow, inbox, outbox
    {
      (Owed(), Funds())
    }

    // ----- giving credit

    /** By how much an adjustment by `amount`, sent now, announces more than it credits. */
    function Uncredited(amount: nat): int
      reads this`adjusting, this`announced, this`adjustQueue
    {
      if adjusting then announced - amount else (amount + adjustQueue) % TWO_TO_THE_32 - (amount + adjustQueue)
    }

    /** Whether it is going to be sent. */
    predicate WillSend(amount: nat, force: bool)
      reads this`adjusting, this`adjustQueue, outbox
    {
      (adjusting || !Queues(amount, force, adjustQueue)) && Next(outbox.answers) == 0
    }

    /** The credit that will be announced and not given by such an adjustment. */
    function Excess(amount: nat, force: bool): int
      reads this`adjusting, this`announced, this`adjustQueue, outbox
    {
      if WillSend(amount, force) then Uncredited(amount) else 0
    }

    /** The same for the arrival of a message: it is adjusted for if it is to be ignored. */
    function ExcessOf(m: Msg): int
      reads this`mode, this`adjusting, this`announced, this`adjustQueue, outbox
    {
      if Ignored(mode, localId, m) then Excess(|m.bytes|, false) else 0
    }

    /** Sends the adjustment already built, and credits `amount` once it is on its way. */
    method Announce(amount: nat) returns (rc: int, ghost more: seq<Msg>)
      requires inbox != outbox && adjusting
      modifies this`adjustQueue, this`adjusting, this`remoteWindow, this`forgotten, this`faults, outbox
      ensures rc <= 0 && outbox.msgs == old(outbox.msgs) + more
      ensures more == if rc == 0 then [Adjust(remoteId, announced)] else []
      ensures outbox.Answers(rc)
      ensures Ledgers() == old(Ledgers())
      ensures remoteWindow == old(remoteWindow) + if rc == 0 then amount else 0
      ensures adjustQueue == if rc == 0 || rc == PACKET_EAGAIN then old(adjustQueue) else amount
      ensures adjusting <==> rc != 0
      ensures faults == old(faults) + if rc < 0 && rc != PACKET_EAGAIN then 1 else 0
      ensures forgotten == old(forgotten) + if rc == 0 then announced - amount else 0
    {
      more := [];
      SumsSnoc(outbox.msgs, Adjust(remoteId, announced), remoteId);
      rc := outbox.Transmit(Adjust(remoteId, announced));
      assert rc != 0 ==> outbox.msgs == old(outbox.msgs) + [];
      if rc == PACKET_EAGAIN {
        return;
      } else if rc != 0 {
        adjustQueue := amount;
        faults := faults + 1;
        return;
      }
      more := [Adjust(remoteId, announced)];
      remoteWindow := remoteWindow + amount;
      forgotten := forgotten + announced - amount;
      adjusting := false;
    }

    /** _libssh2_channel_receive_window_adjust. */
    method AdjustWindow(adjustment: nat, force: bool) returns (rc: int, ghost more: seq<Msg>)
      requires inbox != outbox
      modifies this`adjustQueue, this`adjusting, this`announced, this`remoteWindow, this`forgotten, this`faults, outbox
      ensures rc <= 0 && outbox.msgs == old(outbox.msgs) + more && OnlyAdjusts(more)
      ensures Ledgers() == old(Ledgers()) && remoteWindow >= old(remoteWindow)
      // The request is queued, or there is nothing to do.
      ensures !old(adjusting) && ((!force && adjustment + old(adjustQueue) < 1024)
                                  || (adjustment == 0 && old(adjustQueue) == 0)) ==>
                rc == 0 && !adjusting && more == [] && remoteWindow == old(remoteWindow)
                && adjustQueue == old(adjustQueue) + adjustment
      // It is announced together with what was queued, and credited once it is on its way.
      ensures !old(adjusting) && adjustment + old(adjustQueue) > 0
              && (force || adjustment + old(adjustQueue) >= 1024) ==>
                && announced == (adjustment + old(adjustQueue)) % TWO_TO_THE_32
                && (rc == 0 ==> remoteWindow == old(remoteWindow) + adjustment + old(adjustQueue))
                && (rc == 0 || rc == PACKET_EAGAIN ==> adjustQueue == 0)
      // A repeated call sends the message built before, and credits its own argument.
      ensures old(adjusting) ==>
                && announced == old(announced)
                && (rc == 0 ==> remoteWindow == old(remoteWindow) + adjustment)
                && (rc == 0 || rc == PACKET_EAGAIN ==> adjustQueue == old(adjustQueue))
      // A failure queues what should have been credited.
      ensures rc < 0 && rc != -37 ==> adjustQueue == adjustment + if old(adjusting) then 0 else old(adjustQueue)
      ensures old(adjusting) || !Queues(adjustment, force, old(adjustQueue)) ==>
                && (rc == 0 ==> more == [Adjust(remoteId, announced)])
                && (rc != 0 ==> more == [] && remoteWindow == old(remoteWindow))
      ensures if !old(adjusting) && Queues(adjustment, force, old(adjustQueue)) then
                outbox.answers == old(outbox.answers) && outbox.asked == old(outbox.asked)
              else outbox.Answers(rc)
      ensures adjusting <==> rc != 0
      ensures faults == old(faults) + if rc < 0 && rc != PACKET_EAGAIN then 1 else 0
      ensures forgotten == old(forgotten) + old(Excess(adjustment, force))
    {
      var amount := adjustment;
      if !adjusting {
        if !force && adjustment + adjustQueue < MINADJUST {
          adjustQueue := adjustQueue + adjustment;
          return 0, [];
        }
        if adjustment == 0 && adjustQueue == 0 {
          return 0, [];
        }
        amount := adjustment + adjustQueue;
        adjustQueue := 0;
        announced := amount % TWO_TO_THE_32;
        adjusting := true;
      }
      rc, more := Announce(amount);
    }

    /**
     * Any sequence of adjustments whose sends complete at once: what was asked for is the growth of the window and of
     * the queue, and the window has grown by what was announced, if no announcement can be too big for its 32 bits.
     */
    method AdjustAll(requests: seq<(u32, bool)>) returns (sent: bool, ghost more: seq<Msg>)
      requires inbox != outbox && !adjusting && adjustQueue < MINADJUST
      modifies this`adjustQueue, this`adjusting, this`announced, this`remoteWindow, this`forgotten, this`faults, outbox
      ensures outbox.msgs == old(outbox.msgs) + more
      ensures sent ==>
                && remoteWindow + adjustQueue == old(remoteWindow + adjustQueue) + Requested(requests)
                && adjustQueue < MINADJUST && !adjusting
      ensures sent && AllSmall(requests) ==>
                AdjustBytes(outbox.msgs, remoteId) - old(AdjustBytes(outbox.msgs, remoteId))
                == remoteWindow - old(remoteWindow)
    {
      sent, more := true, [];
      assert outbox.msgs == old(outbox.msgs) + [];
      for i := 0 to |requests|
        invariant outbox.msgs == old(outbox.msgs) + more
        invariant sent && !adjusting && adjustQueue < MINADJUST && Ledgers() == old(Ledgers())
        invariant AllSmall(requests) ==> forgotten == old(forgotten)
        invariant remoteWindow + adjustQueue == old(remoteWindow + adjustQueue) + Requested(requests[..i])
      {
        assert requests[..i + 1][..i] == requests[..i] && requests[i] in requests;
        var rc: int;
        ghost var n: seq<Msg>;
        rc, n := AdjustWindow(requests[i].0, requests[i].1);
        more := more + n;
        if rc != 0 {
          return false, more;
        }
      }
      assert requests[..|requests|] == requests;
    }

    /**
     * An adjustment repeated, as its contract asks, until it is sent. When the transport puts off the first attempt,
     * the window grows by the argument alone, and what had been queued is announced but never credited.
     */
    method AdjustUntilSent(adjustment: u32, force: bool, tries: nat) returns (rc: int, tried: nat)
      requires inbox != outbox && !adjusting && !Queues(adjustment, force, adjustQueue)
      modifies this`adjustQueue, this`adjusting, this`announced, this`remoteWindow, this`forgotten, this`faults, outbox
      ensures rc == 0 ==>
                remoteWindow == old(remoteWindow) + adjustment + if tried == 1 then old(adjustQueue) else 0
      ensures rc == 0 ==>
                forgotten == old(forgotten) + (adjustment + old(adjustQueue)) % TWO_TO_THE_32
                             - (remoteWindow - old(remoteWindow))
      // All is credited exactly when the transport takes the message at once or nothing was queued.
      ensures rc == 0 && adjustment + old(adjustQueue) < TWO_TO_THE_32 ==>
                (forgotten == old(forgotten) <==> Next(old(outbox.answers)) == 0 || old(adjustQueue) == 0)
      // It can come to that: the transport need only put off the first attempt and take the second.
      ensures tries >= 2 && old(outbox.answers) == [PACKET_EAGAIN, 0] ==> rc == 0 && tried == 2
    {
      ghost var more: seq<Msg>;
      ghost var answers := outbox.answers;
      rc, more := AdjustWindow(adjustment, force);
      tried := 1;
      while rc == PACKET_EAGAIN && tried < tries
        invariant tried >= 1
        invariant rc == PACKET_EAGAIN ==>
                    && adjusting && announced == (adjustment + old(adjustQueue)) % TWO_TO_THE_32
                    && remoteWindow == old(remoteWindow) && forgotten == old(forgotten)
        invariant rc == 0 ==>
                    forgotten == old(forgotten) + (adjustment + old(adjustQueue)) % TWO_TO_THE_32
                                 - (remoteWindow - old(remoteWindow))
        invariant rc == 0 ==>
                    remoteWindow == old(remoteWindow) + adjustment + if tried == 1 then old(adjustQueue) else 0
        invariant tried == 1 ==> rc == Next(answers) && outbox.answers == Rest(answers)
        invariant tried > 1 ==> PutOff(answers)
        invariant tried == 2 ==> rc == Next(Rest(answers))
        invariant tried > 2 ==> PutOff(Rest(answers))
      {
        rc, more := AdjustWindow(adjustment, force);
        tried := tried + 1;
      }
    }

    // ----- receiving

    /** How many bytes of `m` packet_add does not charge the window for. */
    function Missed(m: Msg): nat
      reads this`mode, this`remoteWindow
    {
      if !Carries(m, localId) then 0
      else if Ignored(mode, localId, m) then |m.bytes|
      else
        var n := Min(|m.bytes|, remotePacket);
        |m.bytes| - if n <= remoteWindow then n else 0
    }

    /** It is charged for every byte. */
    predicate Fits(m: Msg)
      reads this`mode, this`remoteWindow
    {
      Carries(m, localId) ==>
        if Ignored(mode, localId, m) then m.bytes == []
        else |m.bytes| <= remotePacket && |m.bytes| <= remoteWindow
    }

    lemma FitsMeans(m: Msg)
      ensures Fits(m) <==> Missed(m) == 0
    {
    }

    /** The data of `m` has been queued, cut to the packet size and to the `window`; with an empty window none is. */
    ghost predicate Stored(before: seq<Packet>, m: Msg, window: nat, after: seq<Packet>)
      requires m.Data? || m.Extended?
    {
      after == before + if window == 0 then []
                        else [Packet(m.(bytes := m.bytes[..Min(Min(|m.bytes|, remotePacket), window)]), 0)]
    }

    /** packet_add on data for this channel: queue it and charge the window, cutting off what exceeds either limit. */
    method Queue(m: Msg)
      requires Carries(m, localId) && !Ignored(mode, localId, m)
      modifies this`remoteWindow, this`remoteEof, this`packets, this`uncounted
      // It is cut to the packet size, dropped if the window is empty, and otherwise cut to the window.
      ensures var n := Min(|m.bytes|, remotePacket);
              && remoteWindow == old(remoteWindow) - (if n <= old(remoteWindow) then n else 0)
              && packets == old(packets) + (if old(remoteWindow) == 0 then []
                                            else [Packet(m.(bytes := m.bytes[..Min(n, old(remoteWindow))]), 0)])
      ensures remoteEof <==> old(remoteEof) && old(remoteWindow) == 0
      ensures uncounted == old(uncounted) + old(Missed(m))
      ensures remoteWindow - uncounted == old(remoteWindow - uncounted) - |m.bytes|
      ensures uncounted >= old(uncounted)
      ensures uncounted == old(uncounted) <==> |m.bytes| <= remotePacket && |m.bytes| <= old(remoteWindow)
      ensures uncounted == old(uncounted) ==>
                packets == old(packets) + if old(remoteWindow) == 0 then [] else [Packet(m, 0)]
      ensures old(packets) <= packets && remoteWindow <= old(remoteWindow)
    {
      var body := m.bytes;
      if remotePacket < |body| {
        body := body[..remotePacket];
      }
      if remoteWindow <= 0 {
        uncounted := uncounted + |m.bytes|;
        return;
      }
      remoteEof := false;
      if |body| > remoteWindow {
        uncounted := uncounted + |m.bytes|;
        body := body[..remoteWindow];
      } else {
        uncounted := uncounted + (|m.bytes| - |body|);
        remoteWindow := remoteWindow - |body|;
      }
      assert body == m.bytes[..|body|];
      assert |m.bytes| == |body| ==> m.(bytes := body) == m;
      packets := packets + [Packet(m.(bytes := body), 0)];
    }

    function Data(): Held
      reads this`mode, this`packets, inbox
    {
      Held(localId, mode, packets, inbox.msgs)
    }

    ghost function Now(): View
      reads this`mode, this`packets, inbox, this`remoteWindow, this`refunding, this`readState, outbox
      reads this`adjustQueue, this`adjusting, this`announced, this`forgotten, this`uncounted, this`faults
    {
      View(Data(), remotePacket, remoteWindow, refunding, readState == Jump1,
           Credit(adjustQueue, adjusting, announced, forgotten, outbox.answers), uncounted, faults)
    }

    /** No window adjustment has been asked for, announced or credited. */
    twostate predicate Unadjusted()
      reads this`forgotten, this`adjusting, this`announced, this`adjustQueue, this`faults, this`remoteWindow, outbox
    {
      && forgotten == old(forgotten) && adjusting == old(adjusting) && announced == old(announced)
      && adjustQueue == old(adjustQueue) && faults == old(faults) && remoteWindow <= old(remoteWindow)
      && outbox.answers == old(outbox.answers)
    }

    /** Gives back, as window, the bytes of a packet thrown away. */
    method Refund() returns (rc: int, ghost more: seq<Msg>)
      requires inbox != outbox
      modifies this`adjustQueue, this`adjusting, this`announced, this`remoteWindow, this`forgotten, this`faults, outbox
      modifies this`refunding
      ensures (rc == PACKET_EAGAIN || rc > 0) && faults >= old(faults) && outbox.asked >= old(outbox.asked)
      ensures outbox.msgs == old(outbox.msgs) + more && OnlyAdjusts(more)
      ensures Ledgers() == old(Ledgers()) && remoteWindow >= old(remoteWindow)
      ensures forgotten == old(forgotten) + old(Excess(refund, false))
      ensures refunding <==> rc == PACKET_EAGAIN
      // The refund is credited or queued, unless it is put off.
      ensures rc > 0 && !old(adjusting) ==> remoteWindow + adjustQueue == old(remoteWindow + adjustQueue) + refund
      ensures rc > 0 && old(adjusting) ==>
                if faults == old(faults) then remoteWindow == old(remoteWindow) + refund else adjustQueue == refund
    {
      refunding := true;
      rc, more := AdjustWindow(refund, false);
      if rc == PACKET_EAGAIN {
        return;
      }
      refunding := false;
      rc := CHANNEL_EXTENDED_DATA;
    }

    /** Data for this channel: charged and queued, or thrown away and refunded. */
    method Receive(m: Msg) returns (rc: int, ghost more: seq<Msg>)
      requires inbox != outbox && Carries(m, localId)
      modifies this`adjustQueue, this`adjusting, this`announced, this`remoteWindow, this`forgotten, this`faults, outbox
      modifies this`refunding, this`refund, this`remoteEof, this`packets, this`uncounted
      ensures (rc == PACKET_EAGAIN || rc > 0) && faults >= old(faults) && outbox.asked >= old(outbox.asked)
      ensures outbox.msgs == old(outbox.msgs) + more && OnlyAdjusts(more)
      ensures Owed() == old(Owed()) - |m.bytes| && Funds() == old(Funds())
      ensures remoteWindow >= old(remoteWindow) - |m.bytes|
      ensures if mode.Ignore? && m.Extended? then packets == old(packets) && remoteEof == old(remoteEof)
              else Stored(old(packets), m, old(remoteWindow), packets)
                   && (remoteEof <==> old(remoteEof) && old(remoteWindow) == 0)
      ensures uncounted == old(uncounted) + old(Missed(m)) && old(packets) <= packets
      ensures uncounted == old(uncounted) ==> Kept(old(packets), m, packets)
      ensures forgotten == old(forgotten) + old(ExcessOf(m))
      ensures mode.Ignore? && m.Extended? ==>
                && refund == |m.bytes| && (refunding <==> rc == -37)
                && (rc > 0 && !old(adjusting) ==>
                      remoteWindow + adjustQueue == old(remoteWindow + adjustQueue) + |m.bytes|)
      ensures !Ignored(mode, localId, m) ==> rc > 0 && more == [] && Unadjusted() && refunding == old(refunding)
    {
      rc, more := 1, [];
      if Ignored(mode, localId, m) {
        uncounted := uncounted + |m.bytes|;
        refund := |m.bytes|;
        rc, more := Refund();
      } else {
        Queue(m);
        assert outbox.msgs == old(outbox.msgs) + [];
      }
    }

    /** _libssh2_packet_add for a message just taken off the wire. */
    method Handle(m: Msg) returns (rc: int, ghost more: seq<Msg>)
      requires inbox != outbox
      modifies this`adjustQueue, this`adjusting, this`announced, this`remoteWindow, this`forgotten, this`faults, outbox
      modifies this`refunding, this`refund, this`localWindow, this`remoteEof, this`remoteClose, this`packets
      modifies this`uncounted
      ensures (rc == PACKET_EAGAIN || rc > 0) && faults >= old(faults) && outbox.asked >= old(outbox.asked)
      ensures outbox.msgs == old(outbox.msgs) + more && OnlyAdjusts(more)
      ensures Owed() == old(Owed()) - if Carries(m, localId) then |m.bytes| else 0
      ensures Funds() == old(Funds()) + if m.Adjust? && m.id == localId then m.count else 0
      ensures localWindow >= old(localWindow) && old(packets) <= packets
      ensures remoteWindow >= old(remoteWindow) - if Carries(m, localId) then |m.bytes| else 0
      ensures remoteClose <==> old(remoteClose) || m == Close(localId)
      ensures Carries(m, localId) ==>
                if mode.Ignore? && m.Extended? then packets == old(packets) && remoteEof == old(remoteEof)
                else Stored(old(packets), m, old(remoteWindow), packets)
                     && (remoteEof <==> old(remoteEof) && old(remoteWindow) == 0)
      // Data for another channel of the session is queued for it, and what is for no channel of it is dropped.
      ensures !Carries(m, localId) ==>
                && (remoteEof <==> old(remoteEof) || m == Eof(localId) || m == Close(localId))
                && packets == old(packets) + (if m.Other? || ((m.Data? || m.Extended?) && m.id in others)
                                              then [Packet(m, 0)] else [])
      ensures uncounted == old(uncounted) + old(Missed(m))
      ensures uncounted == old(uncounted) ==> Kept(old(packets), m, packets)
      ensures forgotten == old(forgotten) + old(ExcessOf(m))
      ensures !Ignored(mode, localId, m) ==> rc > 0 && more == [] && Unadjusted() && refunding == old(refunding)
    {
      if Carries(m, localId) {
        rc, more := Receive(m);
        return;
      }
      rc, more := 1, [];
      assert outbox.msgs == old(outbox.msgs) + [];
      match m
      case Data(id, _) =>
        if id in others { packets := packets + [Packet(m, 0)]; }
      case Extended(id, _, _) =>
        if id in others { packets := packets + [Packet(m, 0)]; }
      case Adjust(id, count) =>
        if id == localId { localWindow := localWindow + count; }
      case Eof(id) =>
        if id == localId { remoteEof := true; }
      case Close(id) =>
        if id == localId { remoteClose, remoteEof := true, true; }
      case Other(_) =>
        packets := packets + [Packet(m, 0)];
    }

    /** A message is queued whole, unless it has no byte for this channel. */
    ghost predicate Kept(before: seq<Packet>, m: Msg, after: seq<Packet>) {
      || after == before + [Packet(m, 0)]
      || (after == before && (Carries(m, localId) ==> m.bytes == []))
    }

    /** Moving a message from the wire to the brigade changes no stream. */
    lemma FlowKept(before: seq<Packet>, m: Msg, rest: seq<Msg>, after: seq<Packet>, t: u32)
      requires Kept(before, m, after)
      ensures Stream(after + Fresh(rest), Sel(mode, localId, t)) ==
                Stream(before + Fresh([m] + rest), Sel(mode, localId, t))
    {
      var sel, p := Sel(mode, localId, t), Packet(m, 0);
      assert Fresh([m] + rest) == [p] + Fresh(rest);
      assert before + ([p] + Fresh(rest)) == (before + [p]) + Fresh(rest);
      if after == before {
        StreamSnoc(before, p, sel);
        StreamAppend(before + [p], Fresh(rest), sel);
        StreamAppend(before, Fresh(rest), sel);
        assert Part(p, sel) == [];
        assert Stream(before, sel) + [] == Stream(before, sel);
      }
    }

    /** A covered message fits, and what is left in flight is covered by what is left of the window. */
    lemma StillCovered(m: Msg, rest: seq<Msg>, window: nat, left: int)
      requires DataBytes([m] + rest, localId) <= window
      ensures Carries(m, localId) ==> |m.bytes| <= window
      ensures left == window - (if Carries(m, localId) then |m.bytes| else 0) ==> DataBytes(rest, localId) <= left
    {
      assert ([m] + rest)[1..] == rest;
    }

    /** The next message in flight arrives. */
    method Arrive() returns (rc: int, ghost more: seq<Msg>)
      requires inbox != outbox && inbox.msgs != [] && !refunding
      modifies this`adjustQueue, this`adjusting, this`announced, this`remoteWindow, this`forgotten, this`faults, outbox
      modifies this`refunding, this`refund, this`localWindow, this`remoteEof, this`remoteClose, this`packets
      modifies this`uncounted, inbox
      ensures (rc == PACKET_EAGAIN || rc > 0) && faults >= old(faults) && outbox.asked >= old(outbox.asked)
      ensures outbox.msgs == old(outbox.msgs) + more && OnlyAdjusts(more)
      ensures inbox.msgs == old(inbox.msgs)[1..] && inbox.news == old(inbox.news)
      ensures Ledgers() == old(Ledgers()) && localWindow >= old(localWindow)
      ensures uncounted == old(uncounted) + old(Missed(inbox.msgs[0]))
      ensures forgotten == old(forgotten) + old(ExcessOf(inbox.msgs[0]))
      ensures old(Data().Spared()) ==> outbox.answers == old(outbox.answers) && !refunding && rc > 0
      ensures Pumps(old(Now()), Now())
    {
      var m := inbox.Take();
      assert old(inbox.msgs)[1..] == inbox.msgs;
      rc, more := Handle(m);
      if uncounted == old(uncounted) {
        FlowsKept(old(Data()), m, Data());
      }
      ArrivalPumps(old(Now()), m, Now());
    }

    /** The next message in flight has arrived: what that does, as values. */
    lemma ArrivalPumps(a: View, m: Msg, b: View)
      requires a.held.inbox == [m] + b.held.inbox && a.held.id == b.held.id == localId && a.held.mode == b.held.mode
      requires b.faults >= a.faults && b.limit == a.limit && b.jumped == a.jumped
      requires b.uncounted == a.uncounted ==> Holds(SameFlows, (a.held, b.held))
      requires b.window >= a.window - if Carries(m, localId) then |m.bytes| else 0
      requires !Ignored(a.held.mode, localId, m) ==>
                 && b.credit.Same(a.credit) && b.window <= a.window && b.faults == a.faults
                 && b.refunding == a.refunding
      requires b.uncounted >= a.uncounted
      requires (Carries(m, localId) ==> !Ignored(a.held.mode, localId, m) && |m.bytes| <= a.limit
                                        && |m.bytes| <= a.window) ==> b.uncounted == a.uncounted
      ensures Pumps(a, b)
    {
      assert a.held.inbox[1..] == b.held.inbox && a.held.inbox[0] == m;
      if a.Covered() {
        StillCovered(m, b.held.inbox, a.window, b.window);
      }
      PumpsMeans(a, b);
    }

    lemma FlowsKept(before: Held, m: Msg, after: Held)
      requires before.inbox == [m] + after.inbox && Kept(before.packets, m, after.packets)
      requires before.mode == after.mode == mode && before.id == after.id == localId
      ensures Holds(SameFlows, (before, after))
    {
      forall t: u32
        ensures after.Flow(t) == before.Flow(t)
      {
        FlowKept(before.packets, m, after.inbox, after.packets, t);
      }
      Named(SameFlows, (before, after));
    }

    /**
     * One _libssh2_transport_read that completes a packet: the next message in flight, or the refund it left undone.
     */
    method Deliver() returns (rc: int, ghost more: seq<Msg>)
      requires inbox != outbox && (refunding || inbox.msgs != [])
      modifies this`adjustQueue, this`adjusting, this`announced, this`remoteWindow, this`forgotten, this`faults, outbox
      modifies this`refunding, this`refund, this`localWindow, this`remoteEof, this`remoteClose, this`packets
      modifies this`uncounted, inbox
      ensures (rc == PACKET_EAGAIN || rc > 0) && faults >= old(faults) && outbox.asked >= old(outbox.asked)
      ensures outbox.msgs == old(outbox.msgs) + more && OnlyAdjusts(more)
      ensures inbox.msgs == if old(refunding) then old(inbox.msgs) else old(inbox.msgs)[1..]
      ensures inbox.news == old(inbox.news)
      ensures Ledgers() == old(Ledgers()) && localWindow >= old(localWindow)
      ensures uncounted == old(uncounted) + if old(refunding) then 0 else old(Missed(inbox.msgs[0]))
      ensures !old(refunding) ==> forgotten == old(forgotten) + old(ExcessOf(inbox.msgs[0]))
      ensures old(refunding) ==> (refunding <==> rc <= 0)
      ensures old(Data().Spared() && !refunding) ==> outbox.answers == old(outbox.answers) && !refunding && rc > 0
      ensures Pumps(old(Now()), Now())
    {
      if !refunding {
        rc, more := Arrive();
        return;
      }
      rc, more := Refund();
      Named(SameFlows, (old(Data()), Data()));
      PumpsMeans(old(Now()), Now());
    }

    /** One _libssh2_transport_read: it takes up a refund left undone, or asks the transport for a packet. */
    method PumpOnce() returns (rc: int, ghost more: seq<Msg>)
      requires inbox != outbox
      modifies this`adjustQueue, this`adjusting, this`announced, this`remoteWindow, this`forgotten, this`faults, outbox
      modifies this`refunding, this`refund, this`localWindow, this`remoteEof, this`remoteClose, this`packets
      modifies this`uncounted, inbox
      ensures faults >= old(faults) && outbox.asked >= old(outbox.asked)
      ensures Pumps(old(Now()), Now()) && Ledgers() == old(Ledgers())
      ensures localWindow >= old(localWindow)
      ensures outbox.msgs == old(outbox.msgs) + more && OnlyAdjusts(more)
      ensures rc > 0 || rc == PACKET_EAGAIN || rc in old(inbox.news)
      ensures inbox.news == old(inbox.news) || inbox.news == Rest(old(inbox.news))
      ensures || |inbox.msgs| < old(|inbox.msgs|)
              || (|inbox.msgs| == old(|inbox.msgs|) && old(refunding) && !refunding)
              || (|inbox.msgs| == old(|inbox.msgs|) && refunding == old(refunding) && rc <= 0)
      ensures old(Data().Spared() && !refunding) ==>
                && outbox.answers == old(outbox.answers) && Data().Spared() && !refunding
                && inbox.news == Rest(old(inbox.news))
                && if old(Brings(inbox.news) && inbox.msgs != []) then rc > 0 && inbox.msgs == old(inbox.msgs)[1..]
                   else rc == Next(old(inbox.news)) && inbox.msgs == old(inbox.msgs)
    {
      more := [];
      assert outbox.msgs == old(outbox.msgs) + [];
      PumpsNothing(Now());
      rc := 1;
      if !refunding {
        rc := inbox.Poll();
      }
      if rc > 0 {
        assert Now() == old(Now());
        rc, more := Deliver();
        PumpsMeans(old(Now()), Now());
      }
    }

    /**
     * What the transport says in the end is something it was going to say. If nothing is refunded it is decided, and so
     * is what arrives.
     */
    ghost predicate Heard(said: int, news: seq<int>, msgs: seq<Msg>, decided: bool)
      reads inbox
    {
      && (said == PACKET_EAGAIN || said in news)
      && (decided ==> said == Told(news, |msgs|) && inbox.msgs == msgs[Brought(news, |msgs|)..])
    }

    /**
     * Reads packets off the wire for as long as the transport has any: while (rc > 0) rc = _libssh2_transport_read().
     */
    method Pump() returns (rc: int, ghost more: seq<Msg>)
      requires inbox != outbox
      modifies this`adjustQueue, this`adjusting, this`announced, this`remoteWindow, this`forgotten, this`faults, outbox
      modifies this`refunding, this`refund, this`localWindow, this`remoteEof, this`remoteClose, this`packets
      modifies this`uncounted, inbox
      ensures rc <= 0 && faults >= old(faults) && outbox.asked >= old(outbox.asked)
      ensures |inbox.msgs| <= old(|inbox.msgs|)
      ensures Pumps(old(Now()), Now()) && Ledgers() == old(Ledgers())
      ensures localWindow >= old(localWindow)
      ensures outbox.msgs == old(outbox.msgs) + more && OnlyAdjusts(more)
      ensures Heard(rc, old(inbox.news), old(inbox.msgs), old(Data().Spared() && !refunding))
      ensures old(Data().Spared() && !refunding) ==> outbox.answers == old(outbox.answers) && !refunding
    {
      rc, more := 1, [];
      assert outbox.msgs == old(outbox.msgs) + [];
      PumpsNothing(Now());
      while rc > 0
        invariant outbox.msgs == old(outbox.msgs) + more && OnlyAdjusts(more)
        invariant faults >= old(faults) && outbox.asked >= old(outbox.asked)
        invariant |inbox.msgs| <= old(|inbox.msgs|)
        invariant Pumps(old(Now()), Now()) && Ledgers() == old(Ledgers())
        invariant localWindow >= old(localWindow)
        invariant rc > 0 || rc == PACKET_EAGAIN || rc in old(inbox.news)
        invariant forall r | r in inbox.news :: r in old(inbox.news)
        invariant old(Data().Spared() && !refunding) ==>
                    && Pumping(rc, inbox.news, inbox.msgs, old(inbox.news), old(inbox.msgs))
                    && Data().Spared() && !refunding && outbox.answers == old(outbox.answers)
        decreases |inbox.msgs|, refunding, rc
      {
        ghost var n: seq<Msg>, before, now, left := [], Now(), inbox.news, inbox.msgs;
        rc, n := PumpOnce();
        if old(Data().Spared() && !refunding) {
          PumpingOn(rc, now, left, old(inbox.news), old(inbox.msgs));
        }
        PumpsOn(old(Now()), before, Now());
        MoreAdjusts(old(outbox.msgs), more, n);
        more := more + n;
      }
    }

    // ----- reading

    /** Copies from the selected packet at `i`, and drops it from the brigade if that drains it. */
    method CollectOne(i: nat, n: nat, buf: array<byte>, ghost sel: Selection) returns (j: nat, k: nat)
      requires i < |packets| && n < buf.Length && sel(packets[i].msg)
      modifies this`packets, buf
      ensures j <= |packets| && n <= k <= buf.Length && buf[k..] == old(buf[k..])
      ensures |packets| - j < old(|packets|) - i
      ensures Walk(buf[..k], packets, j, sel, buf.Length - k) == old(Walk(buf[..n], packets, i, sel, buf.Length - n))
    {
      var p, want := packets[i], buf.Length - n;
      if want >= |p.Unread()| {
        WalkDrains(buf[..n], packets, i, sel, want);
        CopyIn(buf, n, p.Unread());
        packets := packets[..i] + packets[i + 1..];
        return i, n + |p.Unread()|;
      } else {
        WalkStops(buf[..n], packets, i, sel, want);
        CopyIn(buf, n, p.Unread()[..want]);
        packets := packets[i := p.(head := p.head + want)];
        return i + 1, buf.Length;
      }
    }

    /**
     * The walk over the brigade in channel_read: copies what it selects into `buf` and unlinks the packets it drains.
     */
    method Collect(t: u32, buf: array<byte>) returns (n: nat)
      modifies this`packets, buf
      ensures n <= buf.Length
      ensures (buf[..n], packets) == Taken(old(packets), Sel(mode, localId, t), buf.Length)
      ensures buf[n..] == old(buf[n..])
    {
      ghost var sel := Sel(mode, localId, t);
      var i: nat := 0;
      n := 0;
      Walking(buf[..0], packets, 0, sel, buf.Length);
      while i < |packets| && n < buf.Length
        invariant i <= |packets| && n <= buf.Length && buf[n..] == old(buf[..])[n..]
        invariant Taken(old(packets), sel, buf.Length) == Walk(buf[..n], packets, i, sel, buf.Length - n)
        decreases |packets| - i
      {
        if Selected(mode, localId, t, packets[i].msg) {
          ghost var before := buf[n..];
          ghost var m := n;
          i, n := CollectOne(i, n, buf, sel);
          assert buf[n..] == before[n - m..];
        } else {
          WalkSkips(buf[..n], packets, i, sel, buf.Length - n);
          i := i + 1;
        }
      }
      WalkEnds(buf[..n], packets, i, sel, buf.Length - n);
    }

    /** channel_read_ex_point1: expands a window that has become too narrow. */
    method Expand() returns (rc: int, ghost more: seq<Msg>)
      requires inbox != outbox
      modifies this`adjustQueue, this`adjusting, this`announced, this`remoteWindow, this`forgotten, this`faults, outbox
      modifies this`readState
      ensures rc <= 0 && outbox.msgs == old(outbox.msgs) + more && OnlyAdjusts(more)
      ensures Ledgers() == old(Ledgers()) && remoteWindow >= old(remoteWindow)
      ensures readState == if rc == PACKET_EAGAIN then Jump1 else Created
      ensures faults >= old(faults)
      ensures rc == PACKET_EAGAIN ==> remoteWindow == old(remoteWindow)
      ensures rc == PACKET_EAGAIN <==> PutOff(old(outbox.answers))
      ensures old(Now()).credit.Honest(WINDOW_STEP) ==> forgotten == old(forgotten)
      ensures rc != PACKET_EAGAIN && faults == old(faults) ==> remoteWindow >= 600 * 65536
      ensures old(Now().Narrow()) && faults == old(faults) ==>
                Now().Steady() && forgotten == old(forgotten) && remoteWindow < 900 * 65536
    {
      readState := Jump1;
      rc, more := AdjustWindow(WINDOW_STEP, false);
      if rc == PACKET_EAGAIN {
        return;
      }
      readState := Created;
    }

    /** What the walk does to this end's streams. */
    lemma Collected(before: seq<Packet>, t: u32, want: nat, fs: seq<Packet>)
      ensures var (x, rest) := Taken(before, Sel(mode, localId, t), want);
              && x + Stream(rest + fs, Sel(mode, localId, t)) == Stream(before + fs, Sel(mode, localId, t))
              && (|x| < want ==> Stream(rest, Sel(mode, localId, t)) == [])
              && forall s: u32 | s != t && Separate(mode, s, t) ::
                   Stream(rest + fs, Sel(mode, localId, s)) == Stream(before + fs, Sel(mode, localId, s))
    {
      var sel := Sel(mode, localId, t);
      var (x, rest) := Taken(before, sel, want);
      TakesInOrder(before, sel, want);
      TakesTheFront(before, sel, want);
      StreamAppend(rest, fs, sel);
      StreamAppend(before, fs, sel);
      Regroup(x, Stream(rest, sel), Stream(fs, sel));
      forall s: u32 | s != t && Separate(mode, s, t)
        ensures Stream(rest + fs, Sel(mode, localId, s)) == Stream(before + fs, Sel(mode, localId, s))
      {
        OtherStreamsStay(before, sel, Sel(mode, localId, s), want);
        StreamAppend(rest, fs, Sel(mode, localId, s));
        StreamAppend(before, fs, Sel(mode, localId, s));
      }
    }

    /** The walk, and what it does to the streams. */
    method CollectStream(t: u32, buf: array<byte>) returns (n: nat)
      modifies this`packets, buf
      ensures n <= buf.Length && buf[n..] == old(buf[n..]) && Draws(old(Data()), Data(), t, buf[..n])
      ensures n < buf.Length ==> Stream(packets, Sel(mode, localId, t)) == []
    {
      Collected(packets, t, buf.Length, Fresh(inbox.msgs));
      n := Collect(t, buf);
      DrawsMeans(old(Data()), Data(), t, buf[..n]);
    }

    /** The window, after a read that returns data. */
    method Widen() returns (rc: int, ghost more: seq<Msg>)
      requires inbox != outbox && readState != Jump1
      modifies this`adjustQueue, this`adjusting, this`announced, this`remoteWindow, this`forgotten, this`faults, outbox
      modifies this`readState
      ensures rc <= 0 && outbox.msgs == old(outbox.msgs) + more && OnlyAdjusts(more)
      ensures Ledgers() == old(Ledgers()) && remoteWindow >= old(remoteWindow)
      ensures readState == if rc == PACKET_EAGAIN then Jump1 else Created
      ensures faults >= old(faults)
      ensures old(remoteWindow) >= 300 * 65536 ==> rc == 0 && remoteWindow == old(remoteWindow) && more == []
      ensures rc == PACKET_EAGAIN ==> remoteWindow == old(remoteWindow)
      ensures old(remoteWindow) < 300 * 65536 ==> (rc == PACKET_EAGAIN <==> PutOff(old(outbox.answers)))
      ensures rc != PACKET_EAGAIN && faults == old(faults) ==> remoteWindow >= 300 * 65536
      ensures old(Now()).credit.Honest(WINDOW_STEP) ==> forgotten == old(forgotten)
      ensures StaysSteady(old(Now()), Now())
    {
      readState := Created;
      rc, more := 0, [];
      assert outbox.msgs == old(outbox.msgs) + [];
      if remoteWindow < WINDOW_LOW {
        rc, more := Expand();
      }
    }

    /** How channel_read ends once the wire has been read: `said` is what the transport said last. */
    ghost predicate Concluded(t: u32, room: nat, said: int, got: nat, rc: int)
      reads this`mode, this`packets, this`remoteEof, this`remoteClose
    {
      && (got < room ==> Stream(packets, Sel(mode, localId, t)) == [])
      && (got == 0 ==> rc == if remoteEof || remoteClose then 0 else said)
      && (got > 0 ==> rc == got || rc == PACKET_EAGAIN)
    }

    /**
     * The same, from its second step on: a failing transport, and an adjustment put off before, come first. `answers`
     * is what the transport is going to say to that.
     */
    ghost predicate Replies(t: u32, room: nat, said: int, jumped: bool, answers: seq<int>, got: nat, rc: int)
      reads this`mode, this`packets, this`remoteEof, this`remoteClose
    {
      if said < 0 && said != -37 then rc == said && got == 0
      else if jumped then got == 0 && rc == if PutOff(answers) then -37 else 0
      else Concluded(t, room, said, got, rc)
    }

    /** channel_read's first step: it reads the wire. */
    method Listen() returns (rc: int, ghost more: seq<Msg>)
      requires inbox != outbox
      modifies this`adjustQueue, this`adjusting, this`announced, this`remoteWindow, this`forgotten, this`faults, outbox
      modifies this`refunding, this`refund, this`localWindow, this`remoteEof, this`remoteClose, this`packets
      modifies this`uncounted, inbox, this`readState
      ensures rc <= 0 && faults >= old(faults) && Pumps(old(Now()), Now()) && Ledgers() == old(Ledgers())
      ensures localWindow >= old(localWindow) && (readState == Jump1 <==> old(readState) == Jump1)
      ensures outbox.msgs == old(outbox.msgs) + more && OnlyAdjusts(more)
      ensures Heard(rc, old(inbox.news), old(inbox.msgs), old(Data().Spared() && !refunding))
      ensures old(Now()).held.Spared() && !old(Now()).refunding ==> Now().credit.answers == old(Now()).credit.answers
    {
      if readState == Idle {
        readState := Created;
      }
      rc, more := Pump();
    }

    /**
     * When channel_read says EAGAIN about bytes it has copied: never while the window is wide, and otherwise exactly
     * when the transport puts off the adjustment that is to widen it.
     */
    ghost predicate Withholds(window: nat, answers: seq<int>, got: nat, rc: int) {
      got > 0 ==>
        && (window >= 300 * 65536 ==> rc == got)
        && (window < 300 * 65536 ==> (rc == PACKET_EAGAIN <==> PutOff(answers)))
    }

    /**
     * The same, from how the end looked before it read the wire: never with a window that stays wide whatever is in
     * flight, and, with a window that is too narrow already, exactly when the transport puts off the adjustment.
     */
    ghost predicate Foreseen(before: View, got: nat, rc: int) {
      got > 0 ==>
        && (before.window - DataBytes(before.held.inbox, before.held.id) >= 300 * 65536 ==> rc == got)
        && (before.held.Spared() && !before.refunding && before.window < 300 * 65536 ==>
              (rc == PACKET_EAGAIN <==> PutOff(before.credit.answers)))
    }

    lemma WithheldBefore(before: View, seen: View, got: nat, rc: int)
      requires Pumps(before, seen) && Withholds(seen.window, seen.credit.answers, got, rc)
      requires before.held.Spared() && !before.refunding ==> seen.credit.answers == before.credit.answers
      ensures Foreseen(before, got, rc)
    {
      PumpsWindow(before, seen);
    }

    /** channel_read once the wire has been read: `said` is 0 or EAGAIN. */
    method ReadReceived(t: u32, buf: array<byte>, said: int) returns (rc: int, ghost got: nat, ghost more: seq<Msg>)
      requires inbox != outbox && readState != Jump1 && (said == 0 || said == PACKET_EAGAIN)
      modifies this`adjustQueue, this`adjusting, this`announced, this`remoteWindow, this`forgotten, this`faults, outbox
      modifies this`readState, this`packets, buf
      ensures outbox.msgs == old(outbox.msgs) + more && OnlyAdjusts(more)
      ensures Ledgers() == old(Ledgers()) && remoteWindow >= old(remoteWindow)
      ensures got <= buf.Length && buf[got..] == old(buf[got..]) && Draws(old(Data()), Data(), t, buf[..got])
      ensures Concluded(t, buf.Length, said, got, rc)
      ensures Withholds(old(remoteWindow), old(outbox.answers), got, rc)
      ensures rc == PACKET_EAGAIN && got > 0 ==> remoteWindow == old(remoteWindow)
      ensures readState == if got == 0 then Idle else if rc == -37 then Jump1 else Created
      ensures faults >= old(faults)
      ensures rc > 0 && faults == old(faults) ==> remoteWindow >= 300 * 65536
      ensures old(Now()).credit.Honest(WINDOW_STEP) ==> forgotten == old(forgotten)
      ensures StaysSteady(old(Now()), Now())
    {
      var n := CollectStream(t, buf);
      got, more := n, [];
      if n == 0 {
        assert outbox.msgs == old(outbox.msgs) + [];
        readState := Idle;
        rc := if remoteEof || remoteClose then 0 else if said == PACKET_EAGAIN then said else 0;
        return;
      }
      rc, more := Widen();
      if rc == PACKET_EAGAIN {
        return;
      }
      rc := n;
    }

    /** channel_read called again after its window adjustment could not be sent at once. */
    method ReadAgain() returns (rc: int, ghost more: seq<Msg>)
      requires inbox != outbox && readState == Jump1
      modifies this`adjustQueue, this`adjusting, this`announced, this`remoteWindow, this`forgotten, this`faults, outbox
      modifies this`readState
      ensures rc == 0 || rc == PACKET_EAGAIN
      ensures outbox.msgs == old(outbox.msgs) + more && OnlyAdjusts(more)
      ensures Ledgers() == old(Ledgers()) && remoteWindow >= old(remoteWindow)
      ensures rc == PACKET_EAGAIN <==> PutOff(old(outbox.answers))
      ensures readState == if rc == -37 then Jump1 else Created
      ensures faults >= old(faults)
      ensures old(Now()).credit.Honest(WINDOW_STEP) ==> forgotten == old(forgotten)
      ensures StaysSteady(old(Now()), Now())
    {
      rc, more := Expand();
      if rc != PACKET_EAGAIN {
        rc := 0;
      }
    }

    /** Where the next read starts: it takes up the adjustment that was put off, or goes to the queue again. */
    function NextState(before: ReadState, got: nat, rc: int): ReadState {
      if rc == -37 && (before == Jump1 || got > 0) then Jump1
      else if before != Jump1 && got == 0 then Idle
      else Created
    }

    /** channel_read from its second step on. */
    method ReadOn(t: u32, buf: array<byte>, said: int) returns (rc: int, ghost got: nat, ghost more: seq<Msg>)
      requires inbox != outbox && said <= 0
      modifies this`adjustQueue, this`adjusting, this`announced, this`remoteWindow, this`forgotten, this`faults, outbox
      modifies this`readState, this`packets, buf
      ensures outbox.msgs == old(outbox.msgs) + more && OnlyAdjusts(more)
      ensures Ledgers() == old(Ledgers()) && remoteWindow >= old(remoteWindow)
      ensures faults >= old(faults)
      ensures got <= buf.Length && buf[got..] == old(buf[got..]) && Copies(old(Now()), Now(), t, buf[..got])
      ensures Replies(t, buf.Length, said, old(readState) == Jump1, old(outbox.answers), got, rc)
      ensures Withholds(old(remoteWindow), old(outbox.answers), got, rc)
      ensures rc < 0 && got > 0 ==> remoteWindow == old(remoteWindow)
      ensures readState == if said < 0 && said != -37 then old(readState) else NextState(old(readState), got, rc)
      ensures rc > 0 && faults == old(faults) ==> remoteWindow >= 300 * 65536
    {
      got, more := 0, [];
      if said < 0 && said != PACKET_EAGAIN {
        rc := said;
        assert outbox.msgs == old(outbox.msgs) + [];
      } else if readState == Jump1 {
        rc, more := ReadAgain();
      } else {
        rc, got, more := ReadReceived(t, buf, said);
      }
      DrawsNothing(old(Data()), t);
      assert buf[..0] == [];
      CopiesMeans(old(Now()), Now(), t, buf[..got]);
    }

    /**
     * _libssh2_channel_read. `got` counts the bytes copied into `buf`: all that `rc` reports, except that a read whose
     * window adjustment cannot be sent at once says EAGAIN about bytes it has copied, and the call repeated says 0.
     * `seen` is how this end looked when the wire had been read, and `said` what the transport said then.
     */
    method Read(t: u32, buf: array<byte>)
      returns (rc: int, ghost got: nat, ghost more: seq<Msg>, ghost said: int, ghost seen: View)
      requires Valid()
      modifies this`adjustQueue, this`adjusting, this`announced, this`remoteWindow, this`forgotten, this`faults, outbox
      modifies this`refunding, this`refund, this`localWindow, this`remoteEof, this`remoteClose, this`packets
      modifies this`uncounted, inbox, this`readState, buf
      ensures outbox.msgs == old(outbox.msgs) + more && OnlyAdjusts(more)
      ensures Ledgers() == old(Ledgers())
      ensures Valid() && localWindow >= old(localWindow)
      ensures got <= buf.Length && buf[got..] == old(buf[got..])
      ensures Pumps(old(Now()), seen) && Copies(seen, Now(), t, buf[..got])
      // The read fails only as the transport does, and leaves data queued only if it has no room or takes up another.
      ensures said <= 0 && Replies(t, buf.Length, said, old(readState) == Jump1, seen.credit.answers, got, rc)
      ensures old(Data().Spared() && !refunding) ==> seen.credit.answers == old(outbox.answers)
      ensures Heard(said, old(inbox.news), old(inbox.msgs), old(Data().Spared() && !refunding))
      ensures rc >= 0 ==> rc == got
      // When it says EAGAIN about bytes it has copied.
      ensures Withholds(seen.window, seen.credit.answers, got, rc) && Foreseen(old(Now()), got, rc)
      ensures rc < 0 && got > 0 ==> remoteWindow == seen.window
      ensures said == 0 || said == -37 ==> readState == NextState(old(readState), got, rc)
      ensures said < 0 && said != -37 ==> (readState == Jump1 <==> old(readState) == Jump1)
      ensures rc > 0 && faults == old(faults) ==> remoteWindow >= 300 * 65536
    {
      var transport: int;
      ghost var m: seq<Msg>, n: seq<Msg>;
      transport, m := Listen();
      said, seen := transport, Now();
      rc, got, n := ReadOn(t, buf, transport);
      WithheldBefore(old(Now()), seen, got, rc);
      more := m + n;
      MoreAdjusts(old(outbox.msgs), m, n);
    }

    // ----- writing

    /** The bytes of the write in progress that have been sent. */
    ghost function Progress(): nat
      reads this`write
    {
      if write.sending then write.wrote else 0
    }

    /** A write that is in progress is repeated with the arguments it began with. */
    ghost predicate Repeats(t: u32, data: seq<byte>)
      reads this`write
    {
      write.sending ==> write.t == t && write.buf == data
    }

    /** The next data packet: as much of what is left as the window and the packet size allow. */
    method Fill(t: u32, data: seq<byte>)
      requires Valid() && write.wrote < |data| <= WRITE_MAX && localPacket > 0 && localWindow > 0
      modifies this`write
      ensures Valid() && write.sending && write.buf == data && write.t == t && write.wrote == old(write.wrote)
      ensures write.n == Min(Min(|data| - write.wrote, localWindow), localPacket)
    {
      var at, n := write.wrote, |data| - write.wrote;
      if n > localWindow {
        n := localWindow;
      }
      if n > localPacket {
        n := localPacket;
      }
      write := Job(true, DataMsg(remoteId, t, data[at..at + n]), at, n, t, data);
      Named(Due, (write, remoteId, localPacket));
    }

    /** How many packets a reader of the wire gets for certain: all the transport brings, if none is ignored. */
    ghost function Draining(): (n: nat)
      reads this`refunding, this`mode, this`packets, inbox
      ensures n <= |inbox.msgs|
    {
      if Data().Spared() && !refunding then Brought(inbox.news, |inbox.msgs|) else 0
    }

    /** Drains the incoming flow and builds the next data packet; none is built when the window is empty. */
    method Build(t: u32, data: seq<byte>) returns (ghost more: seq<Msg>)
      requires Valid() && !write.sending && write.wrote < |data| <= WRITE_MAX && localPacket > 0
      modifies this`adjustQueue, this`adjusting, this`announced, this`remoteWindow, this`forgotten, this`faults, outbox
      modifies this`refunding, this`refund, this`localWindow, this`remoteEof, this`remoteClose, this`packets
      modifies this`uncounted, inbox, this`write
      ensures Valid() && Pumps(old(Now()), Now()) && Ledgers() == old(Ledgers())
      ensures outbox.msgs == old(outbox.msgs) + more && OnlyAdjusts(more)
      ensures write.wrote == old(write.wrote) && Repeats(t, data)
      ensures outbox.asked >= old(outbox.asked)
      ensures |inbox.msgs| <= old(|inbox.msgs|) - old(Draining())
      ensures !write.sending ==> localWindow == 0
    {
      ghost var n: int;
      n, more := Pump();
      if localWindow > 0 {
        Fill(t, data);
      }
    }

    /** Sends the packet that has been built. */
    method SendBuilt() returns (rc: int, ghost more: seq<Msg>)
      requires Valid() && write.sending
      modifies this`write, this`localWindow, outbox
      ensures Valid() && rc <= 0 && Ledgers() == old(Ledgers())
      ensures outbox.msgs == old(outbox.msgs) + more
      ensures more == if rc == 0 then [old(write.packet)] else []
      ensures outbox.asked == old(outbox.asked) + 1 && outbox.last == rc
      ensures localWindow == old(localWindow) - if rc == 0 then write.n else 0
      ensures write == if rc == PACKET_EAGAIN then old(write)
                       else old(write).(sending := false, wrote := old(write.wrote) + if rc == 0 then write.n else 0)
    {
      more := [];
      Named(Due, (write, remoteId, localPacket));
      SumsSnoc(outbox.msgs, write.packet, remoteId);
      rc := outbox.Transmit(write.packet);
      assert rc != 0 ==> outbox.msgs == old(outbox.msgs) + [];
      if rc == PACKET_EAGAIN {
        return;
      }
      write := write.(sending := false);
      if rc == 0 {
        more := [write.packet];
        localWindow := localWindow - write.n;
        write := write.(wrote := write.wrote + write.n);
      }
      Named(Due, (write, remoteId, localPacket));
    }

    /** Sends the packet that has been built, as part of a write of `data`. */
    method SendNext(t: u32, data: seq<byte>) returns (rc: int, ghost more: seq<Msg>)
      requires Valid() && write.sending && Repeats(t, data)
      modifies this`write, this`localWindow, outbox
      ensures Valid() && rc <= 0 && Ledgers() == old(Ledgers())
      ensures outbox.msgs == old(outbox.msgs) + more
      ensures old(write.wrote) <= write.wrote <= |data|
      ensures Carrying(more, remoteId, t, localPacket, data[old(write.wrote)..write.wrote])
      ensures write.sending ==> rc == PACKET_EAGAIN && Repeats(t, data)
      ensures if rc == 0 then write.wrote > old(write.wrote) else write.wrote == old(write.wrote)
      ensures outbox.asked == old(outbox.asked) + 1 && outbox.last == rc
      ensures !write.sending <==> rc != PACKET_EAGAIN
    {
      ghost var at, n := write.wrote, write.n;
      Named(Due, (write, remoteId, localPacket));
      CarryingOne(remoteId, t, localPacket, data[at..at + n]);
      CarryingNone([], remoteId, t, localPacket);
      assert data[at..at] == [];
      rc, more := SendBuilt();
    }

    /** Builds the next packet of a write of `data`, unless one is waiting. */
    method Prepare(t: u32, data: seq<byte>) returns (ghost more: seq<Msg>)
      requires Valid() && write.wrote < |data| <= WRITE_MAX && localPacket > 0 && Repeats(t, data)
      modifies this`adjustQueue, this`adjusting, this`announced, this`remoteWindow, this`forgotten, this`faults, outbox
      modifies this`refunding, this`refund, this`localWindow, this`remoteEof, this`remoteClose, this`packets
      modifies this`uncounted, inbox, this`write
      ensures Valid() && Pumps(old(Now()), Now()) && Ledgers() == old(Ledgers())
      ensures outbox.msgs == old(outbox.msgs) + more && Carrying(more, remoteId, t, localPacket, [])
      ensures write.wrote == old(write.wrote) && Repeats(t, data)
      ensures outbox.asked >= old(outbox.asked)
      ensures |inbox.msgs| <= old(|inbox.msgs|) - old(if write.sending then 0 else Draining())
      ensures !write.sending ==> localWindow == 0
    {
      more := [];
      PumpsNothing(Now());
      assert outbox.msgs == old(outbox.msgs) + [];
      if !write.sending {
        more := Build(t, data);
      }
      CarryingNone(more, remoteId, t, localPacket);
    }

    /**
     * One round of the write loop: builds the next packet unless one is waiting, and sends it. `full` says that the
     * window is empty and nothing was sent.
     */
    method WriteRound(t: u32, data: seq<byte>) returns (rc: int, full: bool, ghost more: seq<Msg>)
      requires Valid() && write.wrote < |data| <= WRITE_MAX && localPacket > 0 && Repeats(t, data)
      modifies this`adjustQueue, this`adjusting, this`announced, this`remoteWindow, this`forgotten, this`faults, outbox
      modifies this`refunding, this`refund, this`localWindow, this`remoteEof, this`remoteClose, this`packets
      modifies this`uncounted, inbox, this`write
      ensures Valid() && rc <= 0 && Pumps(old(Now()), Now()) && Ledgers() == old(Ledgers())
      ensures outbox.msgs == old(outbox.msgs) + more
      ensures old(write.wrote) <= write.wrote <= |data|
      ensures Carrying(more, remoteId, t, localPacket, data[old(write.wrote)..write.wrote])
      ensures write.sending ==> rc == PACKET_EAGAIN && Repeats(t, data)
      ensures if rc == 0 && !full then write.wrote > old(write.wrote) else write.wrote == old(write.wrote)
      ensures full ==> rc == 0 && localWindow == 0
      ensures outbox.asked >= old(outbox.asked)
      ensures |inbox.msgs| <= old(|inbox.msgs|) - old(if write.sending then 0 else Draining())
      ensures !full ==> outbox.asked > old(outbox.asked) && outbox.last == rc
    {
      more := Prepare(t, data);
      full := !write.sending;
      ghost var sent: seq<Msg> := [];
      ghost var at := write.wrote;
      if full {
        rc := 0;
        assert data[at..at] == [];
      } else {
        ghost var seen := Now();
        rc, sent := SendNext(t, data);
        PumpsAndSends(old(Now()), seen, outbox.answers);
        ghost var x := data[at..write.wrote];
        CarryingMore(more, sent, remoteId, t, localPacket, [], x);
        assert [] + x == x;
      }
      assert full ==> more + sent == more;
      more := more + sent;
    }

    /** The write loop: `rc` counts the bytes sent in it. */
    method WriteLoop(t: u32, data: seq<byte>) returns (rc: int, ghost added: seq<Msg>)
      requires Valid() && write.wrote <= |data| <= WRITE_MAX && localPacket > 0 && Repeats(t, data)
      requires write.sending ==> write.wrote < |data|
      modifies this`adjustQueue, this`adjusting, this`announced, this`remoteWindow, this`forgotten, this`faults, outbox
      modifies this`refunding, this`refund, this`localWindow, this`remoteEof, this`remoteClose, this`packets
      modifies this`uncounted, inbox, this`write
      ensures Valid() && Pumps(old(Now()), Now()) && Ledgers() == old(Ledgers())
      ensures outbox.msgs == old(outbox.msgs) + added
      ensures old(write.wrote) <= write.wrote <= |data|
      ensures Carrying(added, remoteId, t, localPacket, data[old(write.wrote)..write.wrote])
      ensures write.sending ==> rc == PACKET_EAGAIN && Repeats(t, data)
      ensures rc >= 0 ==> rc == write.wrote - old(write.wrote)
      ensures rc >= 0 && write.wrote < |data| ==> localWindow == 0
      ensures rc < 0 ==> outbox.asked > old(outbox.asked) && outbox.last == rc
      ensures old(write.wrote) < |data| ==>
                |inbox.msgs| <= old(|inbox.msgs|) - old(if write.sending then 0 else Draining())
    {
      added := [];
      PumpsNothing(Now());
      CarryingNone(added, remoteId, t, localPacket);
      assert outbox.msgs == old(outbox.msgs) + [] && data[write.wrote..write.wrote] == [];
      ghost var from := write.wrote;
      var wrote := 0;
      while write.wrote < |data|
        invariant Valid() && Pumps(old(Now()), Now()) && Ledgers() == old(Ledgers())
        invariant from <= write.wrote <= |data| && wrote == write.wrote - from
        invariant outbox.msgs == old(outbox.msgs) + added
        invariant Carrying(added, remoteId, t, localPacket, data[from..write.wrote])
        invariant Repeats(t, data) && (write.sending ==> write.wrote < |data|)
        invariant outbox.asked >= old(outbox.asked)
        invariant if write.wrote == from then
                    write == old(write) && Draining() == old(Draining()) && |inbox.msgs| == old(|inbox.msgs|)
                  else |inbox.msgs| <= old(|inbox.msgs|) - old(if write.sending then 0 else Draining())
        decreases |data| - write.wrote
      {
        ghost var before, more := Now(), [];
        var at, full := write.wrote, false;
        rc, full, more := WriteRound(t, data);
        PumpsOn(old(Now()), before, Now());
        CarryingMore(added, more, remoteId, t, localPacket, data[from..at], data[at..write.wrote]);
        assert data[from..at] + data[at..write.wrote] == data[from..write.wrote];
        added := added + more;
        if rc != 0 {
          return;
        }
        if full {
          break;
        }
        wrote := wrote + (write.wrote - at);
      }
      rc := wrote;
    }

    /**
     * _libssh2_channel_write. Between the call that starts a write and the one that completes it, the data packets
     * sent carry the front of `buf`, `write.wrote` bytes of it; it stops short of the 32K it attempts only when the
     * window is empty; and `rc` counts the bytes sent by this call alone.
     */
    method Write(t: u32, buf: seq<byte>) returns (rc: int, ghost added: seq<Msg>)
      requires Valid() && Repeats(t, Capped(buf)) && localPacket > 0
      modifies this`adjustQueue, this`adjusting, this`announced, this`remoteWindow, this`forgotten, this`faults, outbox
      modifies this`refunding, this`refund, this`localWindow, this`remoteEof, this`remoteClose, this`packets
      modifies this`uncounted, inbox, this`write
      ensures Valid() && Pumps(old(Now()), Now()) && Ledgers() == old(Ledgers())
      ensures outbox.msgs == old(outbox.msgs) + added
      ensures old(Progress()) <= write.wrote <= |buf| && write.wrote <= 32768
      ensures Carrying(added, remoteId, t, localPacket, buf[old(Progress())..write.wrote])
      ensures write.sending ==> rc == -37 && Repeats(t, Capped(buf))
      ensures rc >= 0 ==> rc == write.wrote - old(Progress())
      ensures rc >= 0 && write.wrote < |buf| && write.wrote < 32768 ==> localWindow == 0
      // Before it builds a packet it takes all the packets off the wire that the transport has for it.
      ensures old(!write.sending && !localClose) && buf != [] ==> |inbox.msgs| <= old(|inbox.msgs|) - old(Draining())
      // It fails on a channel it has closed, and otherwise as the last send it made.
      ensures if old(!write.sending && localClose) then rc == -26 && added == [] && write.wrote == 0
              else rc < 0 ==> outbox.asked > old(outbox.asked) && outbox.last == rc
    {
      var data := Capped(buf);
      added := [];
      PumpsNothing(Now());
      CarryingNone(added, remoteId, t, localPacket);
      assert outbox.msgs == old(outbox.msgs) + [] && data[0..0] == [];
      Named(Due, (write, remoteId, localPacket));
      if !write.sending {
        write := write.(wrote := 0);
        Named(Due, (write, remoteId, localPacket));
        if localClose {
          return ERROR_CHANNEL_CLOSED, added;
        }
      }
      rc, added := WriteLoop(t, data);
      assert data[old(Progress())..write.wrote] == buf[old(Progress())..write.wrote];
    }
  }

  /** Nothing that can come of these requests is too big to announce. */
  predicate AllSmall(requests: seq<(u32, bool)>) {
    forall r | r in requests :: r.0 < TWO_TO_THE_32 - MINADJUST
  }

  function Requested(requests: seq<(u32, bool)>): (n: nat) {
    if requests == [] then 0 else Requested(requests[..|requests| - 1]) + requests[|requests| - 1].0
  }

  /** memcpy into the reader's buffer. */
  method CopyIn(buf: array<byte>, at: nat, data: seq<byte>)
    requires at + |data| <= buf.Length
    modifies buf
    ensures buf[..at + |data|] == old(buf[..at]) + data
    ensures buf[at + |data|..] == old(buf[at + |data|..])
  {
    forall k | 0 <= k < |data| {
      buf[at + k] := data[k];
    }
  }

  /** Where a walk that has copied `x` and come to packet `i` will end. */
  ghost function Walk(x: seq<byte>, ps: seq<Packet>, i: nat, sel: Selection, room: nat): (seq<byte>, seq<Packet>)
    requires i <= |ps|
  {
    (x + Taken(ps[i..], sel, room).0, ps[..i] + Taken(ps[i..], sel, room).1)
  }

  lemma Walking(x: seq<byte>, ps: seq<Packet>, i: nat, sel: Selection, room: nat)
    requires x == [] && i == 0
    ensures Walk(x, ps, i, sel, room) == Taken(ps, sel, room)
  {
    assert ps[0..] == ps && ps[..0] == [];
    var (y, rest) := Taken(ps, sel, room);
    assert [] + y == y && [] + rest == rest;
  }

  lemma WalkSkips(x: seq<byte>, ps: seq<Packet>, i: nat, sel: Selection, room: nat)
    requires i < |ps| && room > 0 && !sel(ps[i].msg)
    ensures Walk(x, ps, i, sel, room) == Walk(x, ps, i + 1, sel, room)
  {
    assert ps[i..][1..] == ps[i + 1..];
    assert ps[..i] + [ps[i]] == ps[..i + 1];
    Regroup(ps[..i], [ps[i]], Taken(ps[i + 1..], sel, room).1);
  }

  lemma WalkDrains(x: seq<byte>, ps: seq<Packet>, i: nat, sel: Selection, room: nat)
    requires i < |ps| && room > 0 && sel(ps[i].msg) && |ps[i].Unread()| <= room
    ensures var u := ps[i].Unread();
            Walk(x, ps, i, sel, room) == Walk(x + u, ps[..i] + ps[i + 1..], i, sel, room - |u|)
  {
    var u, qs := ps[i].Unread(), ps[..i] + ps[i + 1..];
    assert ps[i..][1..] == ps[i + 1..];
    assert qs[i..] == ps[i + 1..] && qs[..i] == ps[..i];
    Regroup(x, u, Taken(ps[i + 1..], sel, room - |u|).0);
  }

  lemma WalkStops(x: seq<byte>, ps: seq<Packet>, i: nat, sel: Selection, room: nat)
    requires i < |ps| && room > 0 && sel(ps[i].msg) && |ps[i].Unread()| > room
    ensures var q := ps[i].(head := ps[i].head + room);
            Walk(x, ps, i, sel, room) == Walk(x + ps[i].Unread()[..room], ps[i := q], i + 1, sel, 0)
  {
    var q := ps[i].(head := ps[i].head + room);
    var qs := ps[i := q];
    assert ps[i..][1..] == ps[i + 1..];
    assert qs[i + 1..] == ps[i + 1..] && qs[..i + 1] == ps[..i] + [q];
    Regroup(ps[..i], [q], ps[i + 1..]);
    var y := ps[i].Unread()[..room];
    assert (x + y) + [] == x + y;
  }

  lemma WalkEnds(x: seq<byte>, ps: seq<Packet>, i: nat, sel: Selection, room: nat)
    requires i <= |ps| && (room == 0 || i == |ps|)
    ensures Walk(x, ps, i, sel, room) == (x, ps)
  {
    assert ps[..i] + ps[i..] == ps && x + [] == x;
  }

  /** Too little to be worth a message, or nothing at all. */
  predicate Queues(adjustment: nat, force: bool, queue: nat) {
    (!force && adjustment + queue < MINADJUST) || (adjustment == 0 && queue == 0)
  }
}
