/**
  Exactly when the two-thread CQueue keeps its promises in every run. getbuffer
  reads mOutindex before it locks that slot, and a push into a full ring can move
  mOutindex in between; the runs built here show what that costs for every ring
  of two or more slots.
*/
module CQueueOrder {
  import opened Common
  import opened DropOldest
  import opened CQueue
  import opened CQueueThreads
  import opened CQueueRefinement
  import opened CQueueRuns

  /** The frames handed over are an in-order, duplicate-free part of the frames pushed. */
  ghost predicate Orderly(t: seq<Event<Frame>>) {
    exists ix :: InOrderSubsequence(Deliveries(t), Pushes(t), ix)
  }

  ghost predicate InOrder(cfg: Config, w: World, schedule: seq<Choice>)
    requires Run(cfg, w, schedule).Some?
  {
    Orderly(Trace(Run(cfg, w, schedule).value.1))
  }

  // Runs that keep the promise.

  /** A ring of one slot has no other index to move to. */
  lemma {:induction false} OneSlotIsNeverStale(cfg: Config, w: World, schedule: seq<Choice>)
    requires Init(cfg, w) && Run(cfg, w, schedule).Some? && cfg.maxFrames == 1
    ensures NeverStale(cfg, w, schedule)
  {
    if schedule != [] {
      OneSlotIsNeverStale(cfg, w, schedule[..|schedule| - 1]);
      RunKeepsOwned(cfg, w, schedule[..|schedule| - 1]);
    }
  }

  lemma SafeIsNeverStale(cfg: Config, w: World, schedule: seq<Choice>)
    requires Init(cfg, w) && Run(cfg, w, schedule).Some? && (cfg.atomicTake || cfg.maxFrames == 1)
    ensures NeverStale(cfg, w, schedule)
  {
    if cfg.atomicTake {
      AtomicTakeIsNeverStale(cfg, w, schedule);
    } else {
      OneSlotIsNeverStale(cfg, w, schedule);
    }
  }

  predicate AllEmpty(frames: seq<Frame>) {
    forall i | 0 <= i < |frames| :: frames[i] == []
  }

  /** With slots of no bytes: every frame is empty, and there are never more deliveries than pushes. */
  predicate EmptySoFar(w: World, labels: seq<Label>) {
    var p, d := Pushes(Trace(labels)), Deliveries(Trace(labels));
    AllEmpty(p) && AllEmpty(d) && |d| + w.s.eff + Count(w.g.Taking()) <= |p|
  }

  lemma EmptyPush(cfg: Config, s: Shared, p: PushThread, frame: Frame)
    requires cfg.mframeLen == 0 && TypedShared(cfg, s) && TypedPush(cfg, p) && PushStep(cfg, s, p, frame).Some?
    ensures var (s', _, l) := PushStep(cfg, s, p, frame).value;
            AllEmpty(PushOf(l)) && DeliveryOf(l) == [] && s'.eff <= s.eff + |PushOf(l)|
  {
  }

  lemma EmptyGet(cfg: Config, s: Shared, g: GetThread)
    requires cfg.mframeLen == 0 && TypedShared(cfg, s) && TypedGet(cfg, g) && GetProgress(cfg, s, g)
             && GetStep(cfg, s, g).Some?
    ensures var (s', g', l) := GetStep(cfg, s, g).value;
            && AllEmpty(DeliveryOf(l)) && PushOf(l) == []
            && s'.eff + Count(g'.Taking()) + |DeliveryOf(l)| <= s.eff + Count(g.Taking())
  {
  }

  lemma EmptyMore(a: seq<Frame>, b: seq<Frame>)
    requires AllEmpty(a) && AllEmpty(b)
    ensures AllEmpty(a + b)
  {
  }

  lemma EmptyStep(cfg: Config, w: World, labels: seq<Label>, choice: Choice)
    requires cfg.mframeLen == 0 && Owned(cfg, w.s, w.p, w.g) && EmptySoFar(w, labels) && Step(cfg, w, choice).Some?
    ensures var (w', l) := Step(cfg, w, choice).value; EmptySoFar(w', labels + [l])
  {
    var l := Step(cfg, w, choice).value.1;
    LabelStep(labels, l);
    if choice.Produce? {
      EmptyPush(cfg, w.s, w.p, choice.frame);
    } else {
      EmptyGet(cfg, w.s, w.g);
    }
    EmptyMore(Pushes(Trace(labels)), PushOf(l));
    EmptyMore(Deliveries(Trace(labels)), DeliveryOf(l));
  }

  lemma {:induction false} EmptyRun(cfg: Config, w: World, schedule: seq<Choice>)
    requires Init(cfg, w) && Run(cfg, w, schedule).Some? && cfg.mframeLen == 0
    ensures var (w', labels) := Run(cfg, w, schedule).value; EmptySoFar(w', labels)
  {
    if schedule != [] {
      var prefix := schedule[..|schedule| - 1];
      EmptyRun(cfg, w, prefix);
      RunKeepsOwned(cfg, w, prefix);
      var (v, before) := Run(cfg, w, prefix).value;
      EmptyStep(cfg, v, before, schedule[|schedule| - 1]);
    }
  }

  lemma EmptyIsInOrder(cfg: Config, w: World, schedule: seq<Choice>)
    requires Init(cfg, w) && Run(cfg, w, schedule).Some? && cfg.mframeLen == 0
    ensures InOrder(cfg, w, schedule)
  {
    EmptyRun(cfg, w, schedule);
    var t := Trace(Run(cfg, w, schedule).value.1);
    var ix := seq(|Deliveries(t)|, i => i);
    assert InOrderSubsequence(Deliveries(t), Pushes(t), ix);
  }

  /** An atomic take, one slot, or slots of no bytes: every run delivers in order. */
  lemma KeepsOrder(cfg: Config, w: World, schedule: seq<Choice>)
    requires Init(cfg, w) && Run(cfg, w, schedule).Some?
    requires cfg.atomicTake || cfg.maxFrames == 1 || cfg.mframeLen == 0
    ensures InOrder(cfg, w, schedule)
  {
    if cfg.mframeLen == 0 {
      EmptyIsInOrder(cfg, w, schedule);
    } else {
      SafeIsNeverStale(cfg, w, schedule);
      var ix := NeverStaleDeliversInOrder(cfg, w, schedule);
    }
  }

  // Building a run step by step.

  /** A run so far: where it has led and what it has shown. */
  datatype Point = Point(schedule: seq<Choice>, w: World, t: seq<Event<Frame>>)

  predicate Reached(cfg: Config, w0: World, x: Point) {
    && Init(cfg, w0) && Typed(cfg, x.w)
    && match Run(cfg, w0, x.schedule)
       case None => false
       case Some((w, labels)) => w == x.w && Trace(labels) == x.t
  }

  lemma Extend(cfg: Config, w0: World, x: Point, choice: Choice) returns (y: Point)
    requires Reached(cfg, w0, x) && Step(cfg, x.w, choice).Some?
    ensures var (w', l) := Step(cfg, x.w, choice).value; y == Point(x.schedule + [choice], w', x.t + EventOf(l))
    ensures Reached(cfg, w0, y)
  {
    var (w', l) := Step(cfg, x.w, choice).value;
    y := Point(x.schedule + [choice], w', x.t + EventOf(l));
    assert y.schedule[..|x.schedule|] == x.schedule;
    LabelStep(Run(cfg, w0, x.schedule).value.1, l);
    RunKeepsOwned(cfg, w0, y.schedule);
  }

  /** A step of push, seen on the thread alone. */
  lemma PushMove(cfg: Config, w0: World, x: Point, frame: Frame) returns (y: Point)
    requires Reached(cfg, w0, x) && PushStep(cfg, x.w.s, x.w.p, frame).Some?
    ensures var (s', p', l) := PushStep(cfg, x.w.s, x.w.p, frame).value;
            y.w == World(s', p', x.w.g) && y.t == (if l.Silent? then x.t else x.t + EventOf(l))
    ensures Reached(cfg, w0, y)
  {
    y := Extend(cfg, w0, x, Produce(frame));
    assert x.t + [] == x.t;
  }

  /** A step of getbuffer or releasebuffer. */
  lemma GetMove(cfg: Config, w0: World, x: Point) returns (y: Point)
    requires Reached(cfg, w0, x) && GetStep(cfg, x.w.s, x.w.g).Some?
    ensures var (s', g', l) := GetStep(cfg, x.w.s, x.w.g).value;
            y.w == World(s', x.w.p, g') && y.t == (if l.Silent? then x.t else x.t + EventOf(l))
    ensures Reached(cfg, w0, y)
  {
    y := Extend(cfg, w0, x, Consume);
    assert x.t + [] == x.t;
  }

  lemma PushSilent(cfg: Config, w0: World, x: Point, s': Shared, p': PushThread) returns (y: Point)
    requires Reached(cfg, w0, x) && PushStep(cfg, x.w.s, x.w.p, []) == Some((s', p', Silent))
    ensures Reached(cfg, w0, y) && y.t == x.t && y.w == World(s', p', x.w.g)
  {
    y := PushMove(cfg, w0, x, []);
  }

  lemma GetSilent(cfg: Config, w0: World, x: Point, s': Shared, g': GetThread) returns (y: Point)
    requires Reached(cfg, w0, x) && GetStep(cfg, x.w.s, x.w.g) == Some((s', g', Silent))
    ensures Reached(cfg, w0, y) && y.t == x.t && y.w == World(s', x.w.p, g')
  {
    y := GetMove(cfg, w0, x);
  }

  // A push, uninterrupted.

  lemma PushStarts(cfg: Config, w0: World, x: Point, frame: Frame) returns (y: Point)
    requires Reached(cfg, w0, x) && x.w.p.pc.PIdle? && x.w.s.owner[x.w.s.inx].Free?
    ensures Reached(cfg, w0, y) && y.t == x.t
    ensures y.w == World(x.w.s.(owner := x.w.s.owner[x.w.s.inx := Producer]), PushThread(PCopy, x.w.s.inx, frame, 0),
            x.w.g)
  {
    y := PushMove(cfg, w0, x, frame);
    y := PushMove(cfg, w0, y, frame);
  }

  /** What copying leaves alone. */
  predicate OnlyBytes(x: Point, y: Point) {
    && y.w.s == x.w.s.(data := y.w.s.data) && y.w.g == x.w.g
    && y.w.p.slot == x.w.p.slot && y.w.p.frame == x.w.p.frame
    && y.t == x.t
  }

  lemma {:induction false} PushCopies(cfg: Config, w0: World, x: Point) returns (y: Point)
    requires Reached(cfg, w0, x) && x.w.p.pc.PCopy?
    ensures Reached(cfg, w0, y) && y.w.p.pc.PSetLen? && OnlyBytes(x, y)
    decreases |x.w.p.frame| - x.w.p.copied
  {
    y := PushMove(cfg, w0, x, []);
    if x.w.p.copied < |Stored(x.w.p.frame, cfg.mframeLen)| {
      y := PushCopies(cfg, w0, y);
    }
  }

  lemma PushSetsLength(cfg: Config, w0: World, x: Point) returns (y: Point)
    requires Reached(cfg, w0, x) && x.w.p.pc.PSetLen?
    ensures Reached(cfg, w0, y) && y.t == x.t
    ensures y.w == World(x.w.s.(datalen := y.w.s.datalen), x.w.p.(pc := PAddIn), x.w.g)
  {
    y := PushMove(cfg, w0, x, []);
  }

  lemma PushMovesIndex(cfg: Config, w0: World, x: Point) returns (y: Point)
    requires Reached(cfg, w0, x) && x.w.p.pc.PAddIn?
    ensures Reached(cfg, w0, y) && y.t == x.t
    ensures y.w == World(x.w.s.(inx := LoopAdd(x.w.s.inx, cfg.maxFrames)), x.w.p.(pc := PPost), x.w.g)
  {
    y := PushSilent(cfg, w0, x, x.w.s.(inx := LoopAdd(x.w.s.inx, cfg.maxFrames)), x.w.p.(pc := PPost));
  }

  lemma PushPosts(cfg: Config, w0: World, x: Point) returns (y: Point)
    requires Reached(cfg, w0, x) && x.w.p.pc.PPost?
    ensures Reached(cfg, w0, y) && y.t == x.t
    ensures y.w == World(x.w.s.(sem := x.w.s.sem + 1), x.w.p.(pc := PIncrease), x.w.g)
  {
    y := PushSilent(cfg, w0, x, x.w.s.(sem := x.w.s.sem + 1), x.w.p.(pc := PIncrease));
  }

  lemma PushAdvances(cfg: Config, w0: World, x: Point) returns (y: Point)
    requires Reached(cfg, w0, x) && x.w.p.pc.PSetLen?
    ensures Reached(cfg, w0, y) && y.t == x.t && y.w.g == x.w.g && y.w.p == x.w.p.(pc := PIncrease)
    ensures y.w.s.owner == x.w.s.owner && y.w.s.outx == x.w.s.outx && y.w.s.eff == x.w.s.eff
    ensures y.w.s.inx == LoopAdd(x.w.s.inx, cfg.maxFrames) && y.w.s.sem == x.w.s.sem + 1
  {
    y := PushSetsLength(cfg, w0, x);
    y := PushMovesIndex(cfg, w0, y);
    y := PushPosts(cfg, w0, y);
  }

  lemma WrittenAtCounter(cfg: Config, w0: World, x: Point)
    requires Reached(cfg, w0, x) && x.w.p.pc.PIncrease?
    ensures x.w.s.Content(x.w.p.slot) == Stored(x.w.p.frame, cfg.mframeLen)
  {
    RunKeepsOwned(cfg, w0, x.schedule);
  }

  /** push up to its counter step, from where it looks at mInindex. */
  lemma PushToCounter(cfg: Config, w0: World, x: Point, frame: Frame) returns (y: Point)
    requires Reached(cfg, w0, x) && x.w.p.pc.PIdle? && x.w.s.owner[x.w.s.inx].Free?
    ensures Reached(cfg, w0, y) && y.t == x.t && y.w.g == x.w.g
    ensures y.w.p.pc.PIncrease? && y.w.p.slot == x.w.s.inx && y.w.p.frame == frame
    ensures y.w.s.owner == x.w.s.owner[x.w.s.inx := Producer] && y.w.s.outx == x.w.s.outx
    ensures y.w.s.inx == LoopAdd(x.w.s.inx, cfg.maxFrames) && y.w.s.eff == x.w.s.eff && y.w.s.sem == x.w.s.sem + 1
    ensures y.w.s.Content(x.w.s.inx) == Stored(frame, cfg.mframeLen)
  {
    y := PushStarts(cfg, w0, x, frame);
    y := PushCopies(cfg, w0, y);
    y := PushAdvances(cfg, w0, y);
    WrittenAtCounter(cfg, w0, y);
  }

  lemma PushUnlocks(cfg: Config, w0: World, x: Point) returns (y: Point)
    requires Reached(cfg, w0, x) && x.w.p.pc.PUnlock?
    ensures Reached(cfg, w0, y) && y.t == x.t
    ensures y.w == World(x.w.s.(owner := x.w.s.owner[x.w.p.slot := Free]), x.w.p.(pc := PIdle), x.w.g)
  {
    y := PushSilent(cfg, w0, x, x.w.s.(owner := x.w.s.owner[x.w.p.slot := Free]), x.w.p.(pc := PIdle));
  }

  lemma PushCommits(cfg: Config, w0: World, x: Point) returns (y: Point)
    requires Reached(cfg, w0, x) && x.w.p.pc.PIncrease? && x.w.s.eff < cfg.maxFrames
    ensures Reached(cfg, w0, y) && y.t == x.t + [Pushed(Stored(x.w.p.frame, cfg.mframeLen))]
    ensures y.w == World(x.w.s.(eff := x.w.s.eff + 1), x.w.p.(pc := PUnlock), x.w.g)
  {
    y := PushMove(cfg, w0, x, []);
  }

  /** The counter step of a push into a ring with room, and the unlock. */
  lemma PushEnds(cfg: Config, w0: World, x: Point) returns (y: Point)
    requires Reached(cfg, w0, x) && x.w.p.pc.PIncrease? && x.w.s.eff < cfg.maxFrames
    ensures Reached(cfg, w0, y) && y.t == x.t + [Pushed(Stored(x.w.p.frame, cfg.mframeLen))]
    ensures y.w.p.pc.PIdle? && y.w.g == x.w.g
    ensures y.w.s == x.w.s.(owner := x.w.s.owner[x.w.p.slot := Free], eff := x.w.s.eff + 1)
  {
    y := PushCommits(cfg, w0, x);
    y := PushUnlocks(cfg, w0, y);
  }

  /** A whole push into a ring with room. */
  lemma PushAppends(cfg: Config, w0: World, x: Point, frame: Frame) returns (y: Point)
    requires Reached(cfg, w0, x) && x.w.p.pc.PIdle? && x.w.s.owner[x.w.s.inx].Free? && x.w.s.eff < cfg.maxFrames
    ensures Reached(cfg, w0, y) && y.t == x.t + [Pushed(Stored(frame, cfg.mframeLen))]
    ensures y.w.p.pc.PIdle? && y.w.g == x.w.g && y.w.s.owner == x.w.s.owner && y.w.s.outx == x.w.s.outx
    ensures y.w.s.inx == LoopAdd(x.w.s.inx, cfg.maxFrames) && y.w.s.eff == x.w.s.eff + 1 && y.w.s.sem == x.w.s.sem + 1
  {
    var i := x.w.s.inx;
    assert x.w.s.owner[i := Producer][i := Free] == x.w.s.owner;
    y := PushToCounter(cfg, w0, x, frame);
    y := PushEnds(cfg, w0, y);
  }

  lemma PushOverwrites(cfg: Config, w0: World, x: Point) returns (y: Point)
    requires Reached(cfg, w0, x) && x.w.p.pc.PIncrease? && x.w.s.eff == cfg.maxFrames
    ensures Reached(cfg, w0, y) && y.t == x.t + [Pushed(Stored(x.w.p.frame, cfg.mframeLen))]
    ensures y.w == World(x.w.s, x.w.p.(pc := PTrywait), x.w.g)
  {
    y := PushMove(cfg, w0, x, []);
  }

  /** A push into a full ring, up to where it is about to give back its semaphore. */
  lemma PushFindsFull(cfg: Config, w0: World, x: Point, frame: Frame) returns (y: Point)
    requires Reached(cfg, w0, x) && x.w.p.pc.PIdle? && x.w.s.owner[x.w.s.inx].Free? && x.w.s.eff == cfg.maxFrames
    ensures Reached(cfg, w0, y) && y.t == x.t + [Pushed(Stored(frame, cfg.mframeLen))]
    ensures y.w.p.pc.PTrywait? && y.w.p.slot == x.w.s.inx && y.w.g == x.w.g
    ensures y.w.s.owner == x.w.s.owner[x.w.s.inx := Producer] && y.w.s.outx == x.w.s.outx
    ensures y.w.s.inx == LoopAdd(x.w.s.inx, cfg.maxFrames) && y.w.s.eff == x.w.s.eff && y.w.s.sem == x.w.s.sem + 1
    ensures y.w.s.Content(x.w.s.inx) == Stored(frame, cfg.mframeLen)
  {
    y := PushToCounter(cfg, w0, x, frame);
    y := PushOverwrites(cfg, w0, y);
  }

  lemma PushGivesBack(cfg: Config, w0: World, x: Point) returns (y: Point)
    requires Reached(cfg, w0, x) && x.w.p.pc.PTrywait?
    ensures Reached(cfg, w0, y) && y.t == x.t
    ensures y.w == World(x.w.s.(sem := if x.w.s.sem == 0 then 0 else x.w.s.sem - 1), x.w.p.(pc := PAddOut), x.w.g)
  {
    y := PushSilent(cfg, w0, x, x.w.s.(sem := if x.w.s.sem == 0 then 0 else x.w.s.sem - 1), x.w.p.(pc := PAddOut));
  }

  lemma PushMovesOutindex(cfg: Config, w0: World, x: Point) returns (y: Point)
    requires Reached(cfg, w0, x) && x.w.p.pc.PAddOut?
    ensures Reached(cfg, w0, y) && y.t == x.t
    ensures y.w == World(x.w.s.(outx := LoopAdd(x.w.s.outx, cfg.maxFrames)), x.w.p.(pc := PUnlock), x.w.g)
  {
    y := PushSilent(cfg, w0, x, x.w.s.(outx := LoopAdd(x.w.s.outx, cfg.maxFrames)), x.w.p.(pc := PUnlock));
  }

  /** The rest of such a push. */
  lemma PushDrops(cfg: Config, w0: World, x: Point) returns (y: Point)
    requires Reached(cfg, w0, x) && x.w.p.pc.PTrywait?
    ensures Reached(cfg, w0, y) && y.t == x.t
    ensures y.w.p.pc.PIdle? && y.w.g == x.w.g
    ensures y.w.s == x.w.s.(owner := x.w.s.owner[x.w.p.slot := Free], outx := LoopAdd(x.w.s.outx, cfg.maxFrames),
                            sem := if x.w.s.sem == 0 then 0 else x.w.s.sem - 1)
  {
    y := PushGivesBack(cfg, w0, x);
    y := PushMovesOutindex(cfg, w0, y);
    y := PushUnlocks(cfg, w0, y);
  }

  // A getbuffer and its release.

  /** getbuffer up to the lock: it has chosen its slot. */
  lemma GetReads(cfg: Config, w0: World, x: Point) returns (y: Point)
    requires Reached(cfg, w0, x) && x.w.g.pc.CWait? && x.w.s.sem > 0 && !cfg.atomicTake
    ensures Reached(cfg, w0, y) && y.t == x.t
    ensures y.w.s == x.w.s.(sem := x.w.s.sem - 1) && y.w.p == x.w.p && y.w.g.pc.CLock? && y.w.g.slot == x.w.s.outx
  {
    y := GetMove(cfg, w0, x);
    y := GetMove(cfg, w0, y);
  }

  lemma GetLocksSlot(cfg: Config, w0: World, x: Point) returns (y: Point)
    requires Reached(cfg, w0, x) && x.w.g.pc.CLock? && x.w.s.owner[x.w.g.slot].Free?
    ensures Reached(cfg, w0, y) && y.t == x.t
    ensures y.w == World(x.w.s.(owner := x.w.s.owner[x.w.g.slot := Consumer]), x.w.p, x.w.g.(pc := CReduce))
  {
    y := GetSilent(cfg, w0, x, x.w.s.(owner := x.w.s.owner[x.w.g.slot := Consumer]), x.w.g.(pc := CReduce));
  }

  lemma GetCounts(cfg: Config, w0: World, x: Point) returns (y: Point)
    requires Reached(cfg, w0, x) && x.w.g.pc.CReduce? && x.w.s.eff > 0
    ensures Reached(cfg, w0, y) && y.t == x.t
    ensures y.w == World(x.w.s.(eff := x.w.s.eff - 1), x.w.p, x.w.g.(pc := CTake))
  {
    y := GetSilent(cfg, w0, x, x.w.s.(eff := x.w.s.eff - 1), x.w.g.(pc := CTake));
  }

  lemma GetLocks(cfg: Config, w0: World, x: Point) returns (y: Point)
    requires Reached(cfg, w0, x) && x.w.g.pc.CLock? && x.w.s.owner[x.w.g.slot].Free? && x.w.s.eff > 0
    ensures Reached(cfg, w0, y) && y.t == x.t && y.w.p == x.w.p
    ensures y.w.s == x.w.s.(owner := x.w.s.owner[x.w.g.slot := Consumer], eff := x.w.s.eff - 1)
    ensures y.w.g == GetThread(CAdvance, x.w.g.slot, x.w.s.datalen[x.w.g.slot])
  {
    y := GetLocksSlot(cfg, w0, x);
    y := GetCounts(cfg, w0, y);
    y := GetMove(cfg, w0, y);
  }

  lemma GetAdvances(cfg: Config, w0: World, x: Point) returns (y: Point)
    requires Reached(cfg, w0, x) && x.w.g.pc.CAdvance?
    ensures Reached(cfg, w0, y) && y.t == x.t + [Delivered(x.w.s.data[x.w.g.slot][..x.w.g.len])]
    ensures y.w == World(x.w.s.(outx := LoopAdd(x.w.s.outx, cfg.maxFrames)), x.w.p, x.w.g.(pc := CBorrowed))
  {
    y := GetMove(cfg, w0, x);
  }

  lemma GetReleases(cfg: Config, w0: World, x: Point) returns (y: Point)
    requires Reached(cfg, w0, x) && x.w.g.pc.CBorrowed?
    ensures Reached(cfg, w0, y) && y.t == x.t
    ensures y.w == World(x.w.s.(owner := x.w.s.owner[x.w.g.slot := Free]), x.w.p, x.w.g.(pc := CWait))
  {
    y := GetSilent(cfg, w0, x, x.w.s.(owner := x.w.s.owner[x.w.g.slot := Free]), x.w.g.(pc := CWait));
  }

  lemma GetDelivers(cfg: Config, w0: World, x: Point) returns (y: Point)
    requires Reached(cfg, w0, x) && x.w.g.pc.CAdvance?
    ensures Reached(cfg, w0, y) && y.t == x.t + [Delivered(x.w.s.data[x.w.g.slot][..x.w.g.len])]
    ensures y.w.s == x.w.s.(owner := x.w.s.owner[x.w.g.slot := Free], outx := LoopAdd(x.w.s.outx, cfg.maxFrames))
    ensures y.w.p == x.w.p && y.w.g.pc.CWait?
  {
    y := GetAdvances(cfg, w0, x);
    y := GetReleases(cfg, w0, y);
  }

  /** The rest of getbuffer and the release: the slot's frame is handed over. */
  lemma GetTakes(cfg: Config, w0: World, x: Point) returns (y: Point)
    requires Reached(cfg, w0, x) && x.w.g.pc.CLock? && x.w.s.owner[x.w.g.slot].Free? && x.w.s.eff > 0
    ensures Reached(cfg, w0, y) && y.t == x.t + [Delivered(x.w.s.Content(x.w.g.slot))]
    ensures y.w.s == x.w.s.(eff := x.w.s.eff - 1, outx := LoopAdd(x.w.s.outx, cfg.maxFrames))
    ensures y.w.p == x.w.p && y.w.g.pc.CWait?
  {
    var i := x.w.g.slot;
    assert x.w.s.owner[i := Consumer][i := Free] == x.w.s.owner;
    y := GetLocks(cfg, w0, x);
    y := GetDelivers(cfg, w0, y);
  }

  // Runs that break the promise.

  predicate AllFree(s: Shared) {
    forall i | 0 <= i < |s.owner| :: s.owner[i].Free?
  }

  /** k empty frames pushed, one after the other. */
  function EmptyPushes(k: nat): seq<Event<Frame>> {
    seq(k, _ => Pushed([]))
  }

  /** k pushes of an empty frame into a new ring. */
  lemma {:induction false} Fill(cfg: Config, w0: World, k: nat) returns (x: Point)
    requires Init(cfg, w0) && k <= cfg.maxFrames
    ensures Reached(cfg, w0, x) && x.t == EmptyPushes(k)
    ensures x.w.p.pc.PIdle? && x.w.g.pc.CWait? && AllFree(x.w.s)
    ensures x.w.s.inx == (if k < cfg.maxFrames then k else 0) && x.w.s.outx == 0 && x.w.s.eff == x.w.s.sem == k
  {
    if k == 0 {
      RunKeepsOwned(cfg, w0, []);
      x := Point([], w0, []);
    } else {
      x := Fill(cfg, w0, k - 1);
      assert EmptyPushes(k) == EmptyPushes(k - 1) + [Pushed([])];
      x := PushAppends(cfg, w0, x, []);
    }
  }

  /** A getbuffer reads index 0 of a full ring; then a push overwrites slot 0 and moves mOutindex on. */
  lemma Overtake(cfg: Config, w0: World, frame: Frame) returns (x: Point)
    requires Init(cfg, w0) && !cfg.atomicTake && cfg.maxFrames >= 2
    ensures Reached(cfg, w0, x) && x.t == EmptyPushes(cfg.maxFrames) + [Pushed(Stored(frame, cfg.mframeLen))]
    ensures x.w.s.Content(0) == Stored(frame, cfg.mframeLen)
    ensures x.w.p.pc.PIdle? && x.w.g.pc.CLock? && x.w.g.slot == 0 && AllFree(x.w.s)
    ensures x.w.s.inx == 1 && x.w.s.outx == 1 && x.w.s.eff == cfg.maxFrames && x.w.s.sem == cfg.maxFrames - 1
  {
    x := Fill(cfg, w0, cfg.maxFrames);
    x := GetReads(cfg, w0, x);
    x := PushFindsFull(cfg, w0, x, frame);
    x := PushDrops(cfg, w0, x);
  }

  lemma EventStep(t: seq<Event<Frame>>, e: Event<Frame>)
    ensures Pushes(t + [e]) == Pushes(t) + if e.Pushed? then [e.frame] else []
    ensures Deliveries(t + [e]) == Deliveries(t) + if e.Delivered? then [e.frame] else []
  {
    assert (t + [e])[..|t|] == t;
  }

  lemma {:induction false} EmptyPushesAre(k: nat)
    ensures Pushes(EmptyPushes(k)) == seq(k, _ => []) && Deliveries(EmptyPushes(k)) == []
  {
    if k > 0 {
      assert EmptyPushes(k) == EmptyPushes(k - 1) + [Pushed([])];
      EmptyPushesAre(k - 1);
      EventStep(EmptyPushes(k - 1), Pushed([]));
    }
  }

  /** The newest frame is handed over first, and then another one: there is no such order. */
  lemma NewestFirstIsNotInOrder(k: nat, c: Frame, f: Frame, t: seq<Event<Frame>>)
    requires c != [] && t == EmptyPushes(k) + [Pushed(c)] + [Delivered(c)] + [Delivered(f)]
    ensures !Orderly(t)
  {
    EmptyPushesAre(k);
    EventStep(EmptyPushes(k), Pushed(c));
    EventStep(EmptyPushes(k) + [Pushed(c)], Delivered(c));
    EventStep(EmptyPushes(k) + [Pushed(c)] + [Delivered(c)], Delivered(f));
    var p, d := Pushes(t), Deliveries(t);
    assert p == seq(k, _ => []) + [c] && d == [c, f];
    forall ix
      ensures !InOrderSubsequence(d, p, ix)
    {
      assert |ix| == 2 && 0 <= ix[0] < ix[1] < |p| ==> p[ix[0]] == [] && d[0] == c;
    }
  }

  /** The overtaken getbuffer hands over the newest frame, and the next one something. */
  lemma TakeNewestFirst(cfg: Config, w0: World) returns (x: Point, f: Frame)
    requires Init(cfg, w0) && !cfg.atomicTake && cfg.maxFrames >= 2 && cfg.mframeLen >= 1
    ensures Reached(cfg, w0, x) && x.t == EmptyPushes(cfg.maxFrames) + [Pushed([1])] + [Delivered([1])] + [Delivered(f)]
  {
    assert Stored([1], cfg.mframeLen) == [1];
    x := Overtake(cfg, w0, [1]);
    x := GetTakes(cfg, w0, x);
    x := GetReads(cfg, w0, x);
    f := x.w.s.Content(x.w.g.slot);
    x := GetTakes(cfg, w0, x);
  }

  /**
    From any initial state of any ring with two slots of at least one byte, the source's own steps can deliver out of
    order.
  */
  lemma BreaksOrder(cfg: Config, w0: World) returns (schedule: seq<Choice>)
    requires Init(cfg, w0) && !cfg.atomicTake && cfg.maxFrames >= 2 && cfg.mframeLen >= 1
    ensures Run(cfg, w0, schedule).Some? && !InOrder(cfg, w0, schedule)
  {
    var x, f := TakeNewestFirst(cfg, w0);
    NewestFirstIsNotInOrder(cfg.maxFrames, [1], f, x.t);
    schedule := x.schedule;
  }

  // More deliveries than the drop-oldest queue has frames.

  /** The trace is no trace of the queue, or the queue after it holds fewer than n frames. */
  predicate QueueBelow(cfg: Config, t: seq<Event<Frame>>, n: int)
    requires 0 < cfg.maxFrames
  {
    After(cfg.maxFrames, t).None? || |After(cfg.maxFrames, t).value| < n
  }

  lemma QueueAfter(cfg: Config, t: seq<Event<Frame>>, e: Event<Frame>, n: int)
    requires 0 < cfg.maxFrames
    ensures QueueBelow(cfg, t + [e], cfg.maxFrames + 1)
    ensures QueueBelow(cfg, t, n) && e.Delivered? ==> QueueBelow(cfg, t + [e], n - 1)
  {
    assert (t + [e])[..|t|] == t;
    if After(cfg.maxFrames, t + [e]).Some? {
      Accounting(cfg.maxFrames, t + [e]);
    }
  }

  /** Both threads at rest, every counted frame with its semaphore, and more of them than the queue holds. */
  predicate Surplus(cfg: Config, x: Point) {
    && !cfg.atomicTake && 0 < cfg.maxFrames
    && x.w.p.pc.PIdle? && x.w.g.pc.CWait? && AllFree(x.w.s) && x.w.s.sem == x.w.s.eff
    && QueueBelow(cfg, x.t, x.w.s.eff)
  }

  lemma {:induction false} TakeAll(cfg: Config, w0: World, x: Point) returns (y: Point)
    requires Reached(cfg, w0, x) && Surplus(cfg, x)
    ensures Reached(cfg, w0, y) && After(cfg.maxFrames, y.t).None?
    decreases x.w.s.eff
  {
    y := x;
    if x.w.s.eff > 0 {
      y := GetReads(cfg, w0, x);
      QueueAfter(cfg, y.t, Delivered(y.w.s.Content(y.w.g.slot)), x.w.s.eff);
      y := GetTakes(cfg, w0, y);
      y := TakeAll(cfg, w0, y);
    }
  }

  /**
    While the overtaken getbuffer hands over slot 0, a push still finds room: one frame more than the queue can hold.
  */
  lemma MakeSurplus(cfg: Config, w0: World) returns (x: Point)
    requires Init(cfg, w0) && !cfg.atomicTake && cfg.maxFrames >= 2
    ensures Reached(cfg, w0, x) && Surplus(cfg, x)
  {
    x := Overtake(cfg, w0, []);
    var owner := x.w.s.owner;
    x := GetLocks(cfg, w0, x);
    QueueAfter(cfg, x.t, Pushed([]), 0);
    x := PushAppends(cfg, w0, x, []);
    QueueAfter(cfg, x.t, Delivered(x.w.s.data[x.w.g.slot][..x.w.g.len]), cfg.maxFrames + 1);
    x := GetDelivers(cfg, w0, x);
  }

  /** From any initial state of any ring of two or more slots, some run is no run of the drop-oldest queue. */
  lemma BreaksQueue(cfg: Config, w0: World) returns (schedule: seq<Choice>)
    requires Init(cfg, w0) && !cfg.atomicTake && cfg.maxFrames >= 2
    ensures Run(cfg, w0, schedule).Some? && After(cfg.maxFrames, Trace(Run(cfg, w0, schedule).value.1)).None?
  {
    var x := MakeSurplus(cfg, w0);
    x := TakeAll(cfg, w0, x);
    schedule := x.schedule;
  }

  // The no-data branch of getbuffer.

  /**
    A pusher that found the ring full keeps slot 1 and its extra semaphore while getbuffer empties the rest of the
    ring.
  */
  predicate Draining(cfg: Config, w: World) {
    && !cfg.atomicTake && 2 <= cfg.maxFrames == |w.s.owner| && w.s.eff < cfg.maxFrames
    && w.p.pc.PTrywait? && w.p.slot == 1 && w.g.pc.CWait?
    && (forall i | 0 <= i < |w.s.owner| :: w.s.owner[i] == if i == 1 then Producer else Free)
    && w.s.sem == w.s.eff + 1 && w.s.outx == Wrap(cfg.maxFrames, 1, cfg.maxFrames - w.s.eff)
  }

  lemma DrainOne(cfg: Config, w0: World, x: Point) returns (y: Point)
    requires Reached(cfg, w0, x) && Draining(cfg, x.w) && x.w.s.eff > 0
    ensures Reached(cfg, w0, y) && Draining(cfg, y.w) && y.w.s.eff == x.w.s.eff - 1
  {
    var k := cfg.maxFrames - x.w.s.eff;
    assert x.w.s.outx != 1 && LoopAdd(x.w.s.outx, cfg.maxFrames) == Wrap(cfg.maxFrames, 1, k + 1);
    y := GetReads(cfg, w0, x);
    y := GetTakes(cfg, w0, y);
  }

  lemma {:induction false} Drain(cfg: Config, w0: World, x: Point) returns (y: Point)
    requires Reached(cfg, w0, x) && Draining(cfg, x.w)
    ensures Reached(cfg, w0, y) && Draining(cfg, y.w) && y.w.s.eff == 0
    decreases x.w.s.eff
  {
    y := x;
    if x.w.s.eff > 0 {
      y := DrainOne(cfg, w0, x);
      y := Drain(cfg, w0, y);
    }
  }

  /** The overtaken getbuffer takes slot 0 while the next push has found the ring full and holds slot 1. */
  lemma StartDraining(cfg: Config, w0: World) returns (x: Point)
    requires Init(cfg, w0) && !cfg.atomicTake && cfg.maxFrames >= 2
    ensures Reached(cfg, w0, x) && Draining(cfg, x.w)
  {
    x := Overtake(cfg, w0, []);
    x := PushFindsFull(cfg, w0, x, []);
    x := GetTakes(cfg, w0, x);
  }

  lemma ReduceFindsNothing(cfg: Config, w0: World, x: Point) returns (y: Point)
    requires Reached(cfg, w0, x) && x.w.g.pc.CLock? && x.w.s.owner[x.w.g.slot].Free? && x.w.s.eff == 0
    ensures Reached(cfg, w0, y) && y.w.g.pc.CNoData?
  {
    y := GetLocksSlot(cfg, w0, x);
    y := GetMove(cfg, w0, y);
  }

  /** getbuffer has taken the extra semaphore and waits for slot 1; the pusher ends; nothing is left. */
  lemma FindsNothing(cfg: Config, w0: World, x: Point) returns (y: Point)
    requires Reached(cfg, w0, x) && Draining(cfg, x.w) && x.w.s.eff == 0
    ensures Reached(cfg, w0, y) && y.w.g.pc.CNoData?
  {
    y := GetReads(cfg, w0, x);
    y := PushDrops(cfg, w0, y);
    y := ReduceFindsNothing(cfg, w0, y);
  }

  /** From any initial state of any ring of two or more slots, getbuffer can get past the semaphore and find no data. */
  lemma GivesUp(cfg: Config, w0: World) returns (schedule: seq<Choice>)
    requires Init(cfg, w0) && !cfg.atomicTake && cfg.maxFrames >= 2
    ensures Run(cfg, w0, schedule).Some? && NoData in Run(cfg, w0, schedule).value.1
  {
    var x := StartDraining(cfg, w0);
    x := Drain(cfg, w0, x);
    x := FindsNothing(cfg, w0, x);
    schedule := x.schedule + [Consume];
    assert schedule[..|x.schedule|] == x.schedule;
    assert Run(cfg, w0, schedule).value.1 == Run(cfg, w0, x.schedule).value.1 + [NoData];
  }

  // Exact conditions.

  function NewQueue(cfg: Config): (w: World)
    requires 0 < cfg.maxFrames
    ensures Init(cfg, w)
  {
    World(Shared(seq(cfg.maxFrames, _ => Free), seq(cfg.maxFrames, _ => 0),
        seq(cfg.maxFrames, _ => seq(cfg.mframeLen, _ => 0)), 0, 0, 0, 0),
          PushThread(PIdle, 0, [], 0), GetThread(CWait, 0, 0))
  }

  /**
    Delivery is in order in every run, whatever the schedule and the frames, if and
    only if reading mOutindex and locking its slot is one step, or the ring has one
    slot, or its slots hold no bytes.
  */
  lemma InOrderExactly(cfg: Config)
    requires 0 < cfg.maxFrames
    ensures (forall w, schedule | Init(cfg, w) && Run(cfg, w, schedule).Some? :: InOrder(cfg, w, schedule))
            <==> cfg.atomicTake || cfg.maxFrames == 1 || cfg.mframeLen == 0
  {
    if cfg.atomicTake || cfg.maxFrames == 1 || cfg.mframeLen == 0 {
      forall w, schedule | Init(cfg, w) && Run(cfg, w, schedule).Some?
        ensures InOrder(cfg, w, schedule)
      {
        KeepsOrder(cfg, w, schedule);
      }
    } else {
      var w := NewQueue(cfg);
      var schedule := BreaksOrder(cfg, w);
    }
  }

  /** Every run is a run of the drop-oldest queue if and only if the take is atomic or the ring has one slot. */
  lemma DropOldestExactly(cfg: Config)
    requires 0 < cfg.maxFrames
    ensures (forall w, schedule | Init(cfg, w) && Run(cfg, w, schedule).Some? ::
               After(cfg.maxFrames, Trace(Run(cfg, w, schedule).value.1)).Some?)
            <==> cfg.atomicTake || cfg.maxFrames == 1
  {
    if cfg.atomicTake || cfg.maxFrames == 1 {
      forall w, schedule | Init(cfg, w) && Run(cfg, w, schedule).Some?
        ensures After(cfg.maxFrames, Trace(Run(cfg, w, schedule).value.1)).Some?
      {
        SafeIsNeverStale(cfg, w, schedule);
        RunRefines(cfg, w, schedule);
        assert Matches(cfg, Run(cfg, w, schedule).value.0, Run(cfg, w, schedule).value.1);
      }
    } else {
      var w := NewQueue(cfg);
      var schedule := BreaksQueue(cfg, w);
    }
  }

  /** getbuffer never returns -1 in any run if and only if the take is atomic or the ring has one slot. */
  lemma NeverGivesUpExactly(cfg: Config)
    requires 0 < cfg.maxFrames
    ensures (forall w, schedule | Init(cfg, w) && Run(cfg, w, schedule).Some? ::
               NoData !in Run(cfg, w, schedule).value.1)
            <==> cfg.atomicTake || cfg.maxFrames == 1
  {
    if cfg.atomicTake || cfg.maxFrames == 1 {
      forall w, schedule | Init(cfg, w) && Run(cfg, w, schedule).Some?
        ensures NoData !in Run(cfg, w, schedule).value.1
      {
        SafeIsNeverStale(cfg, w, schedule);
        var ix := NeverStaleDeliversInOrder(cfg, w, schedule);
      }
    } else {
      var w := NewQueue(cfg);
      var schedule := GivesUp(cfg, w);
    }
  }
}
