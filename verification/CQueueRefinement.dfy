/** The two-thread CQueue refines the drop-oldest FIFO: the simulation relation and its steps. */
module CQueueRefinement {
  import opened Common
  import opened DropOldest
  import opened CQueue
  import opened CQueueThreads

  /** The slot of the oldest frame that nobody has taken and no push has dropped. */
  function Base(cfg: Config, s: Shared, p: PushThread, g: GetThread): nat {
    if g.Taking() || p.Dropping() then LoopAdd(s.outx, cfg.maxFrames) else s.outx
  }

  /** The slot just after the newest frame. */
  function Front(s: Shared, p: PushThread): nat {
    if p.Pending() then p.slot else s.inx
  }

  function Count(b: bool): nat {
    if b then 1 else 0
  }

  /** getbuffer is not about to lock a slot that mOutindex has left since it was read. */
  predicate NotStale(s: Shared, g: GetThread) {
    g.pc.CLock? ==> g.slot == s.outx
  }

  /** How the indices, the counter and the semaphore are tied together at every pair of program counters. */
  predicate Counters(cfg: Config, s: Shared, p: PushThread, g: GetThread)
    requires TypedShared(cfg, s)
  {
    && Front(s, p) == Wrap(cfg.maxFrames, Base(cfg, s, p, g), s.eff)
    && s.sem + Count(g.Pending()) == s.eff + Count(p.pc.PIncrease?) + Count(p.pc.PTrywait?)
    && !g.pc.CNoData?
    && (g.pc.CReduce? || g.Taking() ==> g.slot == s.outx)
    && (g.Taking() ==> s.eff < cfg.maxFrames)
    && (p.Dropping() ==> s.eff == cfg.maxFrames && p.slot == s.outx)
  }

  /** The push holds its slot but has not taken effect: in a full ring that slot is the oldest frame's. */
  predicate Writing(p: PushThread) {
    p.Holds() && (!p.Advanced() || p.Pending())
  }

  /** Slot i is in the window and not being overwritten. */
  predicate Readable(cfg: Config, s: Shared, p: PushThread, g: GetThread, i: nat)
    requires TypedShared(cfg, s) && i < cfg.maxFrames
  {
    Offset(cfg.maxFrames, Base(cfg, s, p, g), i) < s.eff && !(Writing(p) && i == p.slot)
  }

  /** The memory represents the abstract queue q. */
  predicate Represents(cfg: Config, s: Shared, p: PushThread, g: GetThread, q: seq<Frame>)
    requires TypedShared(cfg, s)
  {
    var taken := Count(g.Taking());
    && |q| == s.eff + taken
    && (g.Taking() ==> g.slot < cfg.maxFrames && q[0] == s.Content(g.slot))
    && forall i: nat | i < cfg.maxFrames && Readable(cfg, s, p, g, i) ::
         s.Content(i) == q[taken + Offset(cfg.maxFrames, Base(cfg, s, p, g), i)]
  }

  predicate Sim(cfg: Config, s: Shared, p: PushThread, g: GetThread, q: seq<Frame>) {
    Owned(cfg, s, p, g) && Counters(cfg, s, p, g) && Represents(cfg, s, p, g, q)
  }

  function EventOf(l: Label): seq<Event<Frame>> {
    match l
    case Commit(f, _) => [Pushed(f)]
    case Deliver(f) => [Delivered(f)]
    case _ => []
  }

  /** The queue after the step's event, or None when the event is not one the queue allows. */
  function Abstract(cfg: Config, q: seq<Frame>, l: Label): Option<seq<Frame>>
    requires 0 < cfg.maxFrames
  {
    match l
    case Silent => Some(q)
    case Commit(f, full) => if full == (|q| >= cfg.maxFrames) then Apply(cfg.maxFrames, q, Pushed(f)) else None
    case Deliver(f) => Apply(cfg.maxFrames, q, Delivered(f))
    case NoData => None
  }

  lemma PushCommitKeepsCounters(cfg: Config, s: Shared, p: PushThread, g: GetThread, frame: Frame)
    requires Owned(cfg, s, p, g) && Counters(cfg, s, p, g)
    requires p.pc.PIncrease?
    ensures var (s', p', l) := PushStep(cfg, s, p, frame).value;
            TypedShared(cfg, s') && Counters(cfg, s', p', g)
  {
  }

  lemma PushKeepsCounters(cfg: Config, s: Shared, p: PushThread, g: GetThread, frame: Frame)
    requires Owned(cfg, s, p, g) && Counters(cfg, s, p, g)
    requires PushStep(cfg, s, p, frame).Some? && !p.pc.PIncrease?
    ensures var (s', p', l) := PushStep(cfg, s, p, frame).value;
            TypedShared(cfg, s') && Counters(cfg, s', p', g)
  {
  }

  /** A getbuffer that got past the semaphore finds the counter above zero. */
  lemma PendingFindsData(cfg: Config, s: Shared, p: PushThread, g: GetThread)
    requires Owned(cfg, s, p, g) && Counters(cfg, s, p, g) && g.pc.CReduce?
    ensures s.eff > 0
  {
  }

  lemma GetTakeKeepsCounters(cfg: Config, s: Shared, p: PushThread, g: GetThread)
    requires Owned(cfg, s, p, g) && Counters(cfg, s, p, g) && (g.pc.CReduce? || g.Taking())
    ensures var (s', g', l) := GetStep(cfg, s, g).value;
            TypedShared(cfg, s') && Counters(cfg, s', p, g')
  {
    if g.pc.CReduce? {
      PendingFindsData(cfg, s, p, g);
    }
  }

  lemma GetKeepsCounters(cfg: Config, s: Shared, p: PushThread, g: GetThread)
    requires Owned(cfg, s, p, g) && Counters(cfg, s, p, g)
    requires GetStep(cfg, s, g).Some? && !g.pc.CReduce? && !g.Taking() && NotStale(s, g)
    ensures var (s', g', l) := GetStep(cfg, s, g).value;
            TypedShared(cfg, s') && Counters(cfg, s', p, g')
  {
  }

  /** A step that moves no window and changes no readable slot keeps the represented queue. */
  lemma SameQueue(cfg: Config, s: Shared, p: PushThread, g: GetThread, s': Shared, p': PushThread, g': GetThread,
                  q: seq<Frame>)
    requires TypedShared(cfg, s) && TypedShared(cfg, s') && Represents(cfg, s, p, g, q)
    requires s'.eff == s.eff && Base(cfg, s', p', g') == Base(cfg, s, p, g)
    requires g'.Taking() == g.Taking() && (g.Taking() ==> g'.slot == g.slot && s'.Content(g.slot) == s.Content(g.slot))
    requires forall i: nat | i < cfg.maxFrames && Readable(cfg, s', p', g', i) ::
               Readable(cfg, s, p, g, i) && s'.Content(i) == s.Content(i)
    ensures Represents(cfg, s', p', g', q)
  {
  }

  lemma WritingSparesReadable(cfg: Config, s: Shared, p: PushThread, g: GetThread, frame: Frame, i: nat)
    requires TypedShared(cfg, s) && TypedPush(cfg, p) && i < cfg.maxFrames
    requires PushStep(cfg, s, p, frame).Some? && (p.pc.PLock? || p.pc.PCopy? || p.pc.PSetLen?)
    requires var (s', p', l) := PushStep(cfg, s, p, frame).value; TypedShared(cfg, s') && Readable(cfg, s', p', g, i)
    ensures var (s', p', l) := PushStep(cfg, s, p, frame).value;
            Readable(cfg, s, p, g, i) && s'.Content(i) == s.Content(i)
  {
    assert i != p.slot;
  }

  /** Until the push takes effect it only touches its own unreadable slot. */
  lemma PushWritesRefine(cfg: Config, s: Shared, p: PushThread, g: GetThread, q: seq<Frame>, frame: Frame)
    requires Owned(cfg, s, p, g) && Counters(cfg, s, p, g) && Represents(cfg, s, p, g, q)
    requires PushStep(cfg, s, p, frame).Some? && (p.pc.PLock? || p.pc.PCopy? || p.pc.PSetLen?)
    ensures var (s', p', l) := PushStep(cfg, s, p, frame).value;
            l.Silent? && TypedShared(cfg, s') && Represents(cfg, s', p', g, q)
  {
    var (s', p', l) := PushStep(cfg, s, p, frame).value;
    forall i: nat | i < cfg.maxFrames && Readable(cfg, s', p', g, i)
      ensures Readable(cfg, s, p, g, i) && s'.Content(i) == s.Content(i)
    {
      WritingSparesReadable(cfg, s, p, g, frame, i);
    }
    SameQueue(cfg, s, p, g, s', p', g, q);
  }

  /** The commit of a push into a ring with room: the frame becomes the newest. */
  lemma PushAppendsRefine(cfg: Config, s: Shared, p: PushThread, g: GetThread, q: seq<Frame>)
    requires Owned(cfg, s, p, g) && Counters(cfg, s, p, g) && Represents(cfg, s, p, g, q)
    requires p.pc.PIncrease? && s.eff < cfg.maxFrames
    ensures var s', p' := s.(eff := s.eff + 1), p.(pc := PUnlock);
            |q| < cfg.maxFrames && Represents(cfg, s', p', g, q + [s.Content(p.slot)])
  {
    var s', p' := s.(eff := s.eff + 1), p.(pc := PUnlock);
    forall i: nat | i < cfg.maxFrames && Readable(cfg, s', p', g, i)
      ensures i == p.slot || Readable(cfg, s, p, g, i)
    {
    }
  }

  /** The commit of a push into a full ring: the frame replaces the oldest and becomes the newest. */
  lemma PushReplacesRefine(cfg: Config, s: Shared, p: PushThread, g: GetThread, q: seq<Frame>)
    requires Owned(cfg, s, p, g) && Counters(cfg, s, p, g) && Represents(cfg, s, p, g, q)
    requires p.pc.PIncrease? && s.eff == cfg.maxFrames
    ensures |q| == cfg.maxFrames && Represents(cfg, s, p.(pc := PTrywait), g, q[1..] + [s.Content(p.slot)])
  {
    var p' := p.(pc := PTrywait);
    assert p.slot == s.outx;
    forall i: nat | i < cfg.maxFrames && Readable(cfg, s, p', g, i)
      ensures i == p.slot || Readable(cfg, s, p, g, i)
    {
    }
  }

  lemma PushMovesRefine(cfg: Config, s: Shared, p: PushThread, g: GetThread, q: seq<Frame>, frame: Frame)
    requires Owned(cfg, s, p, g) && Counters(cfg, s, p, g) && Represents(cfg, s, p, g, q)
    requires PushStep(cfg, s, p, frame).Some?
    requires p.pc.PIdle? || p.pc.PAddIn? || p.pc.PPost? || p.Dropping() || p.pc.PUnlock?
    ensures var (s', p', l) := PushStep(cfg, s, p, frame).value;
            l.Silent? && TypedShared(cfg, s') && Represents(cfg, s', p', g, q)
  {
    var (s', p', l) := PushStep(cfg, s, p, frame).value;
    assert Base(cfg, s', p', g) == Base(cfg, s, p, g) && Writing(p') == Writing(p);
    SameQueue(cfg, s, p, g, s', p', g, q);
  }

  /** The commit of a push is the push event of the queue. */
  lemma PushCommitRefines(cfg: Config, s: Shared, p: PushThread, g: GetThread, q: seq<Frame>, frame: Frame)
    requires Owned(cfg, s, p, g) && Counters(cfg, s, p, g) && Represents(cfg, s, p, g, q) && p.pc.PIncrease?
    ensures var (s', p', l) := PushStep(cfg, s, p, frame).value;
            && TypedShared(cfg, s') && Abstract(cfg, q, l).Some?
            && Represents(cfg, s', p', g, Abstract(cfg, q, l).value)
  {
    if s.eff < cfg.maxFrames {
      PushAppendsRefine(cfg, s, p, g, q);
    } else {
      PushReplacesRefine(cfg, s, p, g, q);
    }
  }

  lemma PushRefines(cfg: Config, s: Shared, p: PushThread, g: GetThread, q: seq<Frame>, frame: Frame)
    requires Sim(cfg, s, p, g, q) && PushStep(cfg, s, p, frame).Some?
    ensures var (s', p', l) := PushStep(cfg, s, p, frame).value;
            && Abstract(cfg, q, l).Some?
            && Sim(cfg, s', p', g, Abstract(cfg, q, l).value)
  {
    PushKeepsOwned(cfg, s, p, g, frame);
    if p.pc.PIncrease? {
      PushCommitKeepsCounters(cfg, s, p, g, frame);
      PushCommitRefines(cfg, s, p, g, q, frame);
    } else if p.pc.PLock? || p.pc.PCopy? || p.pc.PSetLen? {
      PushKeepsCounters(cfg, s, p, g, frame);
      PushWritesRefine(cfg, s, p, g, q, frame);
    } else {
      PushKeepsCounters(cfg, s, p, g, frame);
      PushMovesRefine(cfg, s, p, g, q, frame);
    }
  }

  /** Taking the counter keeps the oldest frame at the head of the queue, now in the taker's slot. */
  lemma GetReduceRefine(cfg: Config, s: Shared, p: PushThread, g: GetThread, q: seq<Frame>)
    requires Owned(cfg, s, p, g) && Counters(cfg, s, p, g) && Represents(cfg, s, p, g, q)
    requires g.pc.CReduce?
    ensures s.eff > 0
    ensures Represents(cfg, s.(eff := s.eff - 1), p, g.(pc := CTake), q)
  {
    PendingFindsData(cfg, s, p, g);
    var s', g' := s.(eff := s.eff - 1), g.(pc := CTake);
    assert Readable(cfg, s, p, g, g.slot);
    forall i: nat | i < cfg.maxFrames && Readable(cfg, s', p, g', i)
      ensures Readable(cfg, s, p, g, i)
    {
    }
  }

  /** The frame handed over is the head of the queue. */
  lemma GetDeliverRefine(cfg: Config, s: Shared, p: PushThread, g: GetThread, q: seq<Frame>)
    requires Owned(cfg, s, p, g) && Counters(cfg, s, p, g) && Represents(cfg, s, p, g, q)
    requires g.pc.CAdvance?
    ensures q != [] && q[0] == s.data[g.slot][..g.len]
    ensures Represents(cfg, s.(outx := LoopAdd(s.outx, cfg.maxFrames)), p, g.(pc := CBorrowed), q[1..])
  {
    var s', g' := s.(outx := LoopAdd(s.outx, cfg.maxFrames)), g.(pc := CBorrowed);
    forall i: nat | i < cfg.maxFrames && Readable(cfg, s', p, g', i)
      ensures Readable(cfg, s, p, g, i)
    {
    }
  }

  lemma GetMovesRefine(cfg: Config, s: Shared, p: PushThread, g: GetThread, q: seq<Frame>)
    requires Owned(cfg, s, p, g) && Counters(cfg, s, p, g) && Represents(cfg, s, p, g, q)
    requires GetStep(cfg, s, g).Some? && !g.pc.CReduce? && !g.pc.CAdvance?
    ensures var (s', g', l) := GetStep(cfg, s, g).value;
            l.Silent? && TypedShared(cfg, s') && Represents(cfg, s', p, g', q)
  {
    var (s', g', l) := GetStep(cfg, s, g).value;
    SameQueue(cfg, s, p, g, s', p, g', q);
  }

  lemma GetRefines(cfg: Config, s: Shared, p: PushThread, g: GetThread, q: seq<Frame>)
    requires Sim(cfg, s, p, g, q) && GetStep(cfg, s, g).Some? && NotStale(s, g)
    ensures var (s', g', l) := GetStep(cfg, s, g).value;
            && Abstract(cfg, q, l).Some?
            && Sim(cfg, s', p, g', Abstract(cfg, q, l).value)
  {
    GetKeepsOwned(cfg, s, p, g);
    if g.pc.CReduce? || g.Taking() {
      GetTakeKeepsCounters(cfg, s, p, g);
    } else {
      GetKeepsCounters(cfg, s, p, g);
    }
    match g.pc {
      case CReduce => GetReduceRefine(cfg, s, p, g, q);
      case CAdvance => GetDeliverRefine(cfg, s, p, g, q);
      case _ => GetMovesRefine(cfg, s, p, g, q);
    }
  }
}
