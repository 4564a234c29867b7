/** What one end of a channel knows about its incoming data and the credit it has given, as values. */
module Views {
  import opened Bytes
  import opened Messages
  import opened Brigade
  import opened Naming

  const WINDOW_DEFAULT := 65536
  const WINDOW_LOW := 300 * WINDOW_DEFAULT
  const WINDOW_STEP := 600 * WINDOW_DEFAULT

  datatype Mode = Normal | Ignore | Merge

  // ----- what a reader of stream `t` is after

  /** The three-way test of channel_read. */
  predicate Selected(mode: Mode, id: u32, t: u32, m: Msg) {
    || (t != 0 && m.Extended? && m.id == id && m.stream == t)
    || (t == 0 && m.Data? && m.id == id)
    || (t == 0 && m.Extended? && m.id == id && mode.Merge?)
  }

  /**
   * A reader of stream 0 gets the plain data, and with merged streams the extended data as well; a reader of another
   * stream gets the extended data sent on it; and no reader gets data of another channel, or any other message.
   */
  lemma WhoReads(mode: Mode, id: u32, t: u32, m: Msg)
    ensures t == 0 && mode != Merge ==> (Selected(mode, id, t, m) <==> m.Data? && m.id == id)
    ensures t == 0 && mode == Merge ==> (Selected(mode, id, t, m) <==> (m.Data? || m.Extended?) && m.id == id)
    ensures t != 0 ==> (Selected(mode, id, t, m) <==> m.Extended? && m.id == id && m.stream == t)
  {
  }

  /** Two streams have no data in common: only a merged one has any of another. */
  predicate Separate(mode: Mode, s: u32, t: u32) { !mode.Merge? || (s != 0 && t != 0) }

  /** Extended data for the channel, at an end that ignores it. */
  predicate Ignored(mode: Mode, id: u32, m: Msg) { mode.Ignore? && m.Extended? && m.id == id }

  function Sel(mode: Mode, id: u32, t: u32): Selection {
    m => Selected(mode, id, t, m)
  }

  /** Packets as they lie in the brigade before anybody has read from them. */
  function Fresh(ms: seq<Msg>): (ps: seq<Packet>)
    ensures |ps| == |ms|
  {
    seq(|ms|, i requires 0 <= i < |ms| => Packet(ms[i], 0))
  }

  /** The unread data of a channel: in the brigade, and behind it in flight. */
  datatype Held = Held(id: u32, mode: Mode, packets: seq<Packet>, inbox: seq<Msg>) {
    ghost function Flow(t: u32): seq<byte> {
      Stream(packets + Fresh(inbox), Sel(mode, id, t))
    }

    /** Nothing in flight is to be ignored. */
    predicate Spared() { forall i | 0 <= i < |inbox| :: !Ignored(mode, id, inbox[i]) }
  }

  /**
   * Window adjustments: asked for and queued; announced and not yet sent; sent without having been credited. `answers`
   * is what the transport will say to them.
   */
  datatype Credit = Credit(queue: nat, adjusting: bool, announced: u32, forgotten: int, answers: seq<int>) {
    /** An adjustment by `amount`, sent now, would be credited with what it announces. */
    predicate Honest(amount: nat) {
      if adjusting then announced == amount else amount + queue < TWO_TO_THE_32
    }

    predicate Same(c: Credit) { this.(answers := []) == c.(answers := []) }
  }

  // `jumped`: a read is waiting for its window adjustment to be sent.
  datatype View = View(held: Held, limit: nat, window: nat, refunding: bool, jumped: bool,
                       credit: Credit, uncounted: nat, faults: nat) {

    /** No data in flight exceeds the window or the packet size, and none is to be ignored. */
    ghost predicate Covered() {
      && held.Spared()
      && DataBytes(held.inbox, held.id) <= window
      && forall i | 0 <= i < |held.inbox| && Carries(held.inbox[i], held.id) :: |held.inbox[i].bytes| <= limit
    }

    /** How an endpoint whose window only reads adjust looks between calls. */
    ghost predicate Steady() {
      && !held.mode.Ignore? && !refunding && credit.queue == 0
      && (credit.adjusting ==> credit.announced == WINDOW_STEP && jumped)
      && (jumped ==> window < WINDOW_LOW)
    }

    /** The same, about to expand its window. */
    ghost predicate Narrow() {
      && !held.mode.Ignore? && !refunding && credit.queue == 0
      && (credit.adjusting ==> credit.announced == WINDOW_STEP)
      && window < WINDOW_LOW
    }
  }

  // ----- what a read of the wire does

  ghost predicate SameFlows(p: (Held, Held)) {
    forall t: u32 :: p.1.Flow(t) == p.0.Flow(t)
  }

  /** What reading packets off the wire does to the streams and the credit. */
  ghost predicate IsPump(p: (View, View)) {
    var (a, b) := p;
    && b.uncounted >= a.uncounted && b.faults >= a.faults && b.limit == a.limit && b.jumped == a.jumped
    && b.held.mode == a.held.mode && b.held.id == a.held.id
    && b.window - DataBytes(b.held.inbox, b.held.id) >= a.window - DataBytes(a.held.inbox, a.held.id)
    && (b.uncounted == a.uncounted ==> Holds(SameFlows, (a.held, b.held)))
    && (a.held.Spared() ==> b.held.Spared())
    && (a.held.Spared() && !a.refunding ==>
          b.credit.Same(a.credit) && b.window <= a.window && b.faults == a.faults && !b.refunding)
    && (a.Covered() && !a.refunding ==> b.Covered() && b.uncounted == a.uncounted)
  }

  ghost predicate Pumps(a: View, b: View) {
    Holds(IsPump, (a, b))
  }

  lemma PumpsMeans(a: View, b: View)
    ensures Pumps(a, b) <==> IsPump((a, b))
  {
    Named(IsPump, (a, b));
  }

  lemma PumpsNothing(a: View)
    ensures Pumps(a, a)
  {
    Named(SameFlows, (a.held, a.held));
    PumpsMeans(a, a);
  }

  lemma PumpsOn(a: View, b: View, c: View)
    requires Pumps(a, b) && Pumps(b, c)
    ensures Pumps(a, c)
  {
    PumpsMeans(a, b);
    PumpsMeans(b, c);
    PumpsMeans(a, c);
    Named(SameFlows, (a.held, b.held));
    Named(SameFlows, (b.held, c.held));
    Named(SameFlows, (a.held, c.held));
  }

  /** What is left of the window is at least what it was, less the data that was in flight. */
  lemma PumpsWindow(a: View, b: View)
    requires Pumps(a, b)
    ensures b.window >= a.window - DataBytes(a.held.inbox, a.held.id)
    ensures a.held.Spared() && !a.refunding ==> b.window <= a.window
  {
    PumpsMeans(a, b);
  }

  /** A send uses up an answer, and has nothing else to do with what is received. */
  lemma PumpsAndSends(a: View, b: View, answers: seq<int>)
    requires Pumps(a, b)
    ensures Pumps(a, b.(credit := b.credit.(answers := answers)))
  {
    var c := b.(credit := b.credit.(answers := answers));
    PumpsMeans(a, b);
    PumpsMeans(a, c);
  }

  // ----- what a read of the channel does

  datatype Draw = Draw(before: Held, after: Held, t: u32, x: seq<byte>)

  ghost predicate Fair(d: Draw) {
    && d.x + d.after.Flow(d.t) == d.before.Flow(d.t)
    && forall s: u32 | s != d.t && Separate(d.before.mode, s, d.t) :: d.after.Flow(s) == d.before.Flow(s)
  }

  /** What a read of stream `t` does to the streams: `x` is the front of that one, and the others stay as they were. */
  ghost predicate Draws(a: Held, b: Held, t: u32, x: seq<byte>) {
    Holds(Fair, Draw(a, b, t, x))
  }

  lemma DrawsMeans(a: Held, b: Held, t: u32, x: seq<byte>)
    ensures Draws(a, b, t, x) <==> Fair(Draw(a, b, t, x))
  {
    Named(Fair, Draw(a, b, t, x));
  }

  lemma DrawsNothing(a: Held, t: u32)
    ensures Draws(a, a, t, [])
  {
    DrawsMeans(a, a, t, []);
    assert [] + a.Flow(t) == a.Flow(t);
  }

  /**
   * An endpoint whose window only reads adjust stays one unless sending an adjustment fails; it credits exactly what it
   * announces, and its window ends no higher than it was or than 900 default windows.
   */
  ghost predicate StaysSteady(a: View, b: View) {
    a.Steady() && b.faults == a.faults ==>
      && b.Steady() && b.credit.forgotten == a.credit.forgotten
      && (b.window <= a.window || b.window < 900 * 65536)
  }

  datatype ReadStep = ReadStep(before: View, after: View, t: u32, x: seq<byte>)

  /** The part of a read that follows the wire: data is copied, and the window may be expanded. */
  ghost predicate IsCopy(r: ReadStep) {
    var a, b := r.before, r.after;
    && Draws(a.held, b.held, r.t, r.x) && StaysSteady(a, b)
    && (a.credit.Honest(WINDOW_STEP) ==> b.credit.forgotten == a.credit.forgotten) && b.refunding == a.refunding
    && b.window >= a.window && b.uncounted == a.uncounted && b.faults >= a.faults && b.limit == a.limit
    && b.held.mode == a.held.mode && b.held.id == a.held.id && b.held.inbox == a.held.inbox
  }

  ghost predicate Copies(a: View, b: View, t: u32, x: seq<byte>) {
    Holds(IsCopy, ReadStep(a, b, t, x))
  }

  lemma CopiesMeans(a: View, b: View, t: u32, x: seq<byte>)
    ensures Copies(a, b, t, x) <==> IsCopy(ReadStep(a, b, t, x))
  {
    Named(IsCopy, ReadStep(a, b, t, x));
  }

  /** A whole read. */
  ghost predicate IsRead(r: ReadStep) {
    var a, b := r.before, r.after;
    && b.uncounted >= a.uncounted && b.faults >= a.faults
    && (b.uncounted == a.uncounted ==> Draws(a.held, b.held, r.t, r.x))
    && StaysSteady(a, b)
    && (a.Covered() && !a.refunding ==>
          && b.Covered() && !b.refunding && b.uncounted == a.uncounted
          && (a.credit.Honest(WINDOW_STEP) ==> b.credit.forgotten == a.credit.forgotten))
  }

  ghost predicate Reads(a: View, b: View, t: u32, x: seq<byte>) {
    Holds(IsRead, ReadStep(a, b, t, x))
  }

  lemma ReadsMeans(a: View, b: View, t: u32, x: seq<byte>)
    ensures Reads(a, b, t, x) <==> IsRead(ReadStep(a, b, t, x))
  {
    Named(IsRead, ReadStep(a, b, t, x));
  }

  lemma PumpThenCopy(a: View, b: View, c: View, t: u32, x: seq<byte>)
    requires Pumps(a, b) && Copies(b, c, t, x)
    ensures Reads(a, c, t, x)
  {
    PumpsMeans(a, b);
    CopiesMeans(b, c, t, x);
    ReadsMeans(a, c, t, x);
    if a.uncounted == c.uncounted {
      DrawsMeans(b.held, c.held, t, x);
      DrawsMeans(a.held, c.held, t, x);
      Named(SameFlows, (a.held, b.held));
    }
  }
}
