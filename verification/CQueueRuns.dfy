/** What the two-thread CQueue promises over whole runs. */
module CQueueRuns {
  import opened Common
  import opened DropOldest
  import opened CQueue
  import opened CQueueThreads
  import opened CQueueRefinement

  /** Who moves next; the producer picks the frame when it starts a push. */
  datatype Choice = Produce(frame: Frame) | Consume

  datatype World = World(s: Shared, p: PushThread, g: GetThread)

  predicate Typed(cfg: Config, w: World) {
    TypedShared(cfg, w.s) && TypedPush(cfg, w.p) && TypedGet(cfg, w.g)
  }

  /** What the constructor leaves: unlocked slots with arbitrary bytes and lengths. */
  predicate Init(cfg: Config, w: World) {
    && Typed(cfg, w)
    && w.s.inx == w.s.outx == w.s.eff == w.s.sem == 0
    && w.p.pc.PIdle? && w.g.pc.CWait?
    && forall i | 0 <= i < |w.s.owner| :: w.s.owner[i].Free?
  }

  function Step(cfg: Config, w: World, choice: Choice): Option<(World, Label)> {
    if !Typed(cfg, w) then None else
    match choice
    case Produce(frame) =>
      (match PushStep(cfg, w.s, w.p, frame)
       case None => None
       case Some((s, p, l)) => Some((World(s, p, w.g), l)))
    case Consume =>
      (match GetStep(cfg, w.s, w.g)
       case None => None
       case Some((s, g, l)) => Some((World(s, w.p, g), l)))
  }

  /** The world and the labels after a schedule, or None when it lets a blocked thread move. */
  function Run(cfg: Config, w: World, schedule: seq<Choice>): Option<(World, seq<Label>)> {
    if schedule == [] then Some((w, [])) else
    var before := Run(cfg, w, schedule[..|schedule| - 1]);
    if before.None? then None else
    var last := Step(cfg, before.value.0, schedule[|schedule| - 1]);
    if last.None? then None else Some((last.value.0, before.value.1 + [last.value.1]))
  }

  function Trace(labels: seq<Label>): seq<Event<Frame>> {
    if labels == [] then [] else Trace(labels[..|labels| - 1]) + EventOf(labels[|labels| - 1])
  }

  predicate NeverFull(labels: seq<Label>) {
    forall l | l in labels :: !(l.Commit? && l.full)
  }

  lemma {:induction false} RunKeepsOwned(cfg: Config, w: World, schedule: seq<Choice>)
    requires Init(cfg, w) && Run(cfg, w, schedule).Some?
    ensures var w' := Run(cfg, w, schedule).value.0; Owned(cfg, w'.s, w'.p, w'.g)
  {
    if schedule != [] {
      RunKeepsOwned(cfg, w, schedule[..|schedule| - 1]);
      var v := Run(cfg, w, schedule[..|schedule| - 1]).value.0;
      var choice := schedule[|schedule| - 1];
      StepsKeepOwned(cfg, v.s, v.p, v.g, if choice.Produce? then choice.frame else []);
    }
  }

  /** In every reachable state some thread can move, and a waiting pusher waits only for a borrower. */
  lemma NoDeadlock(cfg: Config, w: World, schedule: seq<Choice>, frame: Frame)
    requires Init(cfg, w) && Run(cfg, w, schedule).Some?
    ensures Run(cfg, w, schedule + [Produce(frame)]).Some? || Run(cfg, w, schedule + [Consume]).Some?
  {
    RunKeepsOwned(cfg, w, schedule);
    var w' := Run(cfg, w, schedule).value.0;
    SomeThreadCanMove(cfg, w'.s, w'.p, w'.g, frame);
    assert (schedule + [Produce(frame)])[..|schedule|] == schedule;
    assert (schedule + [Consume])[..|schedule|] == schedule;
  }

  function PushOf(l: Label): seq<Frame> {
    if l.Commit? then [l.frame] else []
  }

  function DeliveryOf(l: Label): seq<Frame> {
    if l.Deliver? then [l.frame] else []
  }

  lemma OneEvent(t: seq<Event<Frame>>, l: Label)
    ensures if EventOf(l) == [] then t + EventOf(l) == t else (t + EventOf(l))[..|t|] == t
  {
  }

  /** The trace after one more label, whatever the step was. */
  lemma LabelStep(labels: seq<Label>, l: Label)
    ensures Trace(labels + [l]) == Trace(labels) + EventOf(l)
    ensures Pushes(Trace(labels + [l])) == Pushes(Trace(labels)) + PushOf(l)
    ensures Deliveries(Trace(labels + [l])) == Deliveries(Trace(labels)) + DeliveryOf(l)
  {
    assert (labels + [l])[..|labels|] == labels;
    OneEvent(Trace(labels), l);
  }

  /** The queue after one more label; the label's event is the last of the trace. */
  lemma TraceStep(cfg: Config, labels: seq<Label>, l: Label, q: seq<Frame>)
    requires 0 < cfg.maxFrames && After(cfg.maxFrames, Trace(labels)) == Some(q) && Abstract(cfg, q, l).Some?
    ensures After(cfg.maxFrames, Trace(labels + [l])) == Abstract(cfg, q, l)
    ensures Overwritten(cfg.maxFrames, Trace(labels + [l])) ==
            Overwritten(cfg.maxFrames, Trace(labels)) + Count(l.Commit? && l.full)
  {
    LabelStep(labels, l);
    OneEvent(Trace(labels), l);
  }

  predicate WorldSim(cfg: Config, w: World, q: seq<Frame>) {
    Sim(cfg, w.s, w.p, w.g, q)
  }

  lemma StepRefines(cfg: Config, w: World, choice: Choice, q: seq<Frame>)
    requires WorldSim(cfg, w, q) && Step(cfg, w, choice).Some?
    requires choice.Consume? ==> NotStale(w.s, w.g)
    ensures var (w', l) := Step(cfg, w, choice).value;
            Abstract(cfg, q, l).Some? && WorldSim(cfg, w', Abstract(cfg, q, l).value)
  {
    if choice.Produce? {
      PushRefines(cfg, w.s, w.p, w.g, q, choice.frame);
    } else {
      GetRefines(cfg, w.s, w.p, w.g, q);
    }
  }

  /** Whenever getbuffer locks a slot in this run, mOutindex is still the index it read. */
  predicate NeverStale(cfg: Config, w: World, schedule: seq<Choice>)
    requires Run(cfg, w, schedule).Some?
  {
    schedule == [] ||
    var prefix := schedule[..|schedule| - 1];
    && NeverStale(cfg, w, prefix)
    && (schedule[|schedule| - 1].Consume? ==> var v := Run(cfg, w, prefix).value.0; NotStale(v.s, v.g))
  }

  /** What a run has shown so far is a trace of the queue, and the memory stands for the queue after it. */
  predicate Matches(cfg: Config, w: World, labels: seq<Label>) {
    && 0 < cfg.maxFrames
    && After(cfg.maxFrames, Trace(labels)).Some?
    && WorldSim(cfg, w, After(cfg.maxFrames, Trace(labels)).value)
    && NoData !in labels
    && (Overwritten(cfg.maxFrames, Trace(labels)) == 0 <==> NeverFull(labels))
  }

  lemma LabelsMore(cfg: Config, labels: seq<Label>, l: Label, q: seq<Frame>)
    requires 0 < cfg.maxFrames && After(cfg.maxFrames, Trace(labels)) == Some(q) && Abstract(cfg, q, l).Some?
    requires NoData !in labels && (Overwritten(cfg.maxFrames, Trace(labels)) == 0 <==> NeverFull(labels))
    ensures After(cfg.maxFrames, Trace(labels + [l])) == Abstract(cfg, q, l)
    ensures NoData !in labels + [l]
    ensures Overwritten(cfg.maxFrames, Trace(labels + [l])) == 0 <==> NeverFull(labels + [l])
  {
    assert l in labels + [l] && forall x | x in labels :: x in labels + [l];
    TraceStep(cfg, labels, l, q);
  }

  lemma MatchesMore(cfg: Config, w: World, labels: seq<Label>, choice: Choice)
    requires Matches(cfg, w, labels) && Step(cfg, w, choice).Some?
    requires choice.Consume? ==> NotStale(w.s, w.g)
    ensures var (w', l) := Step(cfg, w, choice).value; Matches(cfg, w', labels + [l])
  {
    var q := After(cfg.maxFrames, Trace(labels)).value;
    StepRefines(cfg, w, choice, q);
    LabelsMore(cfg, labels, Step(cfg, w, choice).value.1, q);
  }

  /**
    Main refinement. As long as getbuffer never locks a slot that mOutindex has
    left since it was read, every run is a run of the drop-oldest queue, and
    getbuffer never gives up. The queue overwrites exactly when a push finds the
    ring full.
  */
  lemma {:induction false} RunRefines(cfg: Config, w: World, schedule: seq<Choice>)
    requires Init(cfg, w) && Run(cfg, w, schedule).Some? && NeverStale(cfg, w, schedule)
    ensures var (w', labels) := Run(cfg, w, schedule).value; Matches(cfg, w', labels)
  {
    if schedule == [] {
      assert WorldSim(cfg, w, []);
    } else {
      var prefix := schedule[..|schedule| - 1];
      RunRefines(cfg, w, prefix);
      var (v, before) := Run(cfg, w, prefix).value;
      MatchesMore(cfg, v, before, schedule[|schedule| - 1]);
    }
  }

  /** With an atomic take there is no time between reading the index and locking the slot. */
  lemma {:induction false} AtomicTakeIsNeverStale(cfg: Config, w: World, schedule: seq<Choice>)
    requires Init(cfg, w) && Run(cfg, w, schedule).Some? && cfg.atomicTake
    ensures !Run(cfg, w, schedule).value.0.g.pc.CLock? && NeverStale(cfg, w, schedule)
  {
    if schedule != [] {
      AtomicTakeIsNeverStale(cfg, w, schedule[..|schedule| - 1]);
    }
  }

  /** No push is dropping a frame, and the index read last is still mOutindex. */
  predicate Undisturbed(w: World) {
    !w.p.Dropping() && NotStale(w.s, w.g)
  }

  lemma StepKeepsUndisturbed(cfg: Config, w: World, choice: Choice)
    requires Undisturbed(w) && Step(cfg, w, choice).Some?
    requires var (w', l) := Step(cfg, w, choice).value; !(l.Commit? && l.full)
    ensures var (w', l) := Step(cfg, w, choice).value; Undisturbed(w')
  {
  }

  /** In a ring that never fills nobody but getbuffer itself moves mOutindex. */
  lemma {:induction false} NeverFullIsNeverStale(cfg: Config, w: World, schedule: seq<Choice>)
    requires Init(cfg, w) && Run(cfg, w, schedule).Some?
    requires NeverFull(Run(cfg, w, schedule).value.1)
    ensures Undisturbed(Run(cfg, w, schedule).value.0) && NeverStale(cfg, w, schedule)
  {
    if schedule != [] {
      var prefix, choice := schedule[..|schedule| - 1], schedule[|schedule| - 1];
      var (v, before) := Run(cfg, w, prefix).value;
      var (w', l) := Step(cfg, v, choice).value;
      assert l in before + [l] && forall x | x in before :: x in before + [l];
      NeverFullIsNeverStale(cfg, w, prefix);
      StepKeepsUndisturbed(cfg, v, choice);
    }
  }

  ghost predicate InOrderSubsequence(d: seq<Frame>, p: seq<Frame>, ix: seq<int>) {
    && StrictlyIncreasing(ix) && |ix| == |d|
    && forall i | 0 <= i < |d| :: 0 <= ix[i] < |p| && d[i] == p[ix[i]]
  }

  /** Without a stale lock the frames handed over are an in-order, duplicate-free part of the frames pushed. */
  lemma NeverStaleDeliversInOrder(cfg: Config, w: World, schedule: seq<Choice>) returns (ix: seq<int>)
    requires Init(cfg, w) && Run(cfg, w, schedule).Some? && NeverStale(cfg, w, schedule)
    ensures var t := Trace(Run(cfg, w, schedule).value.1); InOrderSubsequence(Deliveries(t), Pushes(t), ix)
    ensures NoData !in Run(cfg, w, schedule).value.1
  {
    RunRefines(cfg, w, schedule);
    assert Matches(cfg, Run(cfg, w, schedule).value.0, Run(cfg, w, schedule).value.1);
    var t := Trace(Run(cfg, w, schedule).value.1);
    InOrderDelivery(cfg.maxFrames, t);
    ix := Sources(cfg.maxFrames, t);
  }

  /** With an atomic take that is every run. */
  lemma AtomicTakeDeliversInOrder(cfg: Config, w: World, schedule: seq<Choice>) returns (ix: seq<int>)
    requires Init(cfg, w) && Run(cfg, w, schedule).Some? && cfg.atomicTake
    ensures var t := Trace(Run(cfg, w, schedule).value.1); InOrderSubsequence(Deliveries(t), Pushes(t), ix)
    ensures NoData !in Run(cfg, w, schedule).value.1
  {
    AtomicTakeIsNeverStale(cfg, w, schedule);
    ix := NeverStaleDeliversInOrder(cfg, w, schedule);
  }

  /** With the source's own steps and a ring that never fills, delivery is exactly first in, first out. */
  lemma NeverFullDeliversPrefix(cfg: Config, w: World, schedule: seq<Choice>)
    requires Init(cfg, w) && Run(cfg, w, schedule).Some?
    requires NeverFull(Run(cfg, w, schedule).value.1)
    ensures var t := Trace(Run(cfg, w, schedule).value.1); Deliveries(t) <= Pushes(t)
    ensures NoData !in Run(cfg, w, schedule).value.1
  {
    NeverFullIsNeverStale(cfg, w, schedule);
    RunRefines(cfg, w, schedule);
    LosslessExactly(cfg.maxFrames, Trace(Run(cfg, w, schedule).value.1));
  }

  // Every interleaving of the source's own steps, overwriting ones included.

  /** Every slot the pushing thread does not hold has the bytes of one push. */
  predicate AllFromPushes(s: Shared, pushed: seq<Frame>)
    requires |s.owner| == |s.datalen| == |s.data|
    requires forall i | 0 <= i < |s.data| :: s.datalen[i] <= |s.data[i]|
  {
    forall i: nat | i < |s.owner| && !s.owner[i].Producer? :: s.Content(i) in pushed
  }

  /** No push has found the ring full yet, and the memory stands for the queue. */
  predicate QuietSoFar(cfg: Config, w: World, labels: seq<Label>) {
    && 0 < cfg.maxFrames && NeverFull(labels) && Undisturbed(w)
    && After(cfg.maxFrames, Trace(labels)).Some?
    && WorldSim(cfg, w, After(cfg.maxFrames, Trace(labels)).value)
  }

  lemma QuietMore(cfg: Config, w: World, labels: seq<Label>, choice: Choice)
    requires QuietSoFar(cfg, w, labels) && Step(cfg, w, choice).Some?
    requires var (w', l) := Step(cfg, w, choice).value; !(l.Commit? && l.full)
    ensures var (w', l) := Step(cfg, w, choice).value; Typed(cfg, w') && QuietSoFar(cfg, w', labels + [l])
  {
    var q := After(cfg.maxFrames, Trace(labels)).value;
    StepRefines(cfg, w, choice, q);
    StepKeepsUndisturbed(cfg, w, choice);
    TraceStep(cfg, labels, Step(cfg, w, choice).value.1, q);
  }

  /** What the run so far says about where bytes come from: before the ring was ever full, and after. */
  predicate Provenance(cfg: Config, w: World, labels: seq<Label>)
    requires Owned(cfg, w.s, w.p, w.g)
  {
    var pushed := Pushes(Trace(labels));
    && (w.p.Advanced() && !w.p.Pending() ==> Stored(w.p.frame, cfg.mframeLen) in pushed)
    && (w.g.Taking() || w.g.pc.CBorrowed? ==> w.s.Content(w.g.slot) in pushed)
    && (AllFromPushes(w.s, pushed) || QuietSoFar(cfg, w, labels))
  }

  lemma PushKeepsAllFromPushes(cfg: Config, s: Shared, p: PushThread, g: GetThread, frame: Frame, pushed: seq<Frame>)
    requires Owned(cfg, s, p, g) && PushStep(cfg, s, p, frame).Some? && AllFromPushes(s, pushed)
    requires p.Advanced() && !p.Pending() ==> Stored(p.frame, cfg.mframeLen) in pushed
    ensures var (s', p', l) := PushStep(cfg, s, p, frame).value;
            TypedShared(cfg, s') && AllFromPushes(s', pushed)
  {
    PushKeepsOwned(cfg, s, p, g, frame);
    var (s', p', l) := PushStep(cfg, s, p, frame).value;
    forall i: nat | i < |s'.owner| && !s'.owner[i].Producer?
      ensures s'.Content(i) in pushed
    {
      if i != p.slot || !p.Holds() {
        assert !s.owner[i].Producer? && s'.Content(i) == s.Content(i);
      }
    }
  }

  lemma GetKeepsAllFromPushes(cfg: Config, s: Shared, p: PushThread, g: GetThread, pushed: seq<Frame>)
    requires Owned(cfg, s, p, g) && GetStep(cfg, s, g).Some? && AllFromPushes(s, pushed)
    ensures var (s', g', l) := GetStep(cfg, s, g).value;
            TypedShared(cfg, s') && AllFromPushes(s', pushed)
  {
    GetKeepsBytes(cfg, s, g);
    var (s', g', l) := GetStep(cfg, s, g).value;
    forall i: nat | i < |s'.owner| && !s'.owner[i].Producer?
      ensures s'.Content(i) in pushed
    {
      assert !s.owner[i].Producer? && s'.Content(i) == s.Content(i);
    }
  }

  /** Once every slot comes from a push, no step can change that. */
  lemma AllFromPushesIsStable(cfg: Config, w: World, choice: Choice, pushed: seq<Frame>)
    requires Owned(cfg, w.s, w.p, w.g) && Step(cfg, w, choice).Some? && AllFromPushes(w.s, pushed)
    requires w.p.Advanced() && !w.p.Pending() ==> Stored(w.p.frame, cfg.mframeLen) in pushed
    ensures var (w', l) := Step(cfg, w, choice).value;
            Typed(cfg, w') && AllFromPushes(w'.s, pushed)
  {
    if choice.Produce? {
      PushKeepsAllFromPushes(cfg, w.s, w.p, w.g, choice.frame, pushed);
    } else {
      GetKeepsAllFromPushes(cfg, w.s, w.p, w.g, pushed);
    }
  }

  /** When a push finds the ring full, every slot that thread does not hold is in the queue. */
  lemma FullMeansAllFromPushes(cfg: Config, w: World, q: seq<Frame>, pushed: seq<Frame>)
    requires WorldSim(cfg, w, q) && w.p.pc.PIncrease? && w.s.eff == cfg.maxFrames
    requires forall f | f in q :: f in pushed
    ensures AllFromPushes(w.s, pushed)
  {
    forall i: nat | i < |w.s.owner| && !w.s.owner[i].Producer?
      ensures w.s.Content(i) in pushed
    {
      assert Readable(cfg, w.s, w.p, w.g, i);
    }
  }

  /** Taking the counter of a slot: its bytes come from a push, whether or not the ring was ever full. */
  lemma ReduceFindsPush(cfg: Config, w: World, labels: seq<Label>)
    requires Owned(cfg, w.s, w.p, w.g) && Provenance(cfg, w, labels) && w.g.pc.CReduce?
    ensures w.s.Content(w.g.slot) in Pushes(Trace(labels))
  {
    var pushed := Pushes(Trace(labels));
    if AllFromPushes(w.s, pushed) {
      assert w.s.owner[w.g.slot].Consumer?;
    } else {
      var q := After(cfg.maxFrames, Trace(labels)).value;
      PendingFindsData(cfg, w.s, w.p, w.g);
      assert Readable(cfg, w.s, w.p, w.g, w.g.slot);
      Accounting(cfg.maxFrames, Trace(labels));
    }
  }

  /** A push never writes the slot the other thread holds. */
  lemma PushSparesHeldSlot(cfg: Config, s: Shared, p: PushThread, g: GetThread, frame: Frame)
    requires Owned(cfg, s, p, g) && g.Holds() && PushStep(cfg, s, p, frame).Some?
    ensures var (s', p', l) := PushStep(cfg, s, p, frame).value;
            TypedShared(cfg, s') && s'.Content(g.slot) == s.Content(g.slot)
  {
  }

  /** getbuffer starts to use a slot only at its counter step, and never writes one. */
  lemma GetKeepsBytes(cfg: Config, s: Shared, g: GetThread)
    requires TypedShared(cfg, s) && TypedGet(cfg, g) && GetStep(cfg, s, g).Some?
    ensures var (s', g', l) := GetStep(cfg, s, g).value;
            && s'.data == s.data && s'.datalen == s.datalen
            && (g'.Taking() || g'.pc.CBorrowed? ==> g'.slot == g.slot && (g.Taking() || g.pc.CReduce?))
  {
  }

  /** A slot being taken or borrowed keeps coming from a push. */
  lemma TakenComesFromPush(cfg: Config, w: World, labels: seq<Label>, choice: Choice)
    requires Owned(cfg, w.s, w.p, w.g) && Provenance(cfg, w, labels) && Step(cfg, w, choice).Some?
    requires var (w', l) := Step(cfg, w, choice).value; Typed(cfg, w')
    ensures var (w', l) := Step(cfg, w, choice).value;
            w'.g.Taking() || w'.g.pc.CBorrowed? ==> w'.s.Content(w'.g.slot) in Pushes(Trace(labels))
  {
    var (w', l) := Step(cfg, w, choice).value;
    if choice.Produce? {
      if w.g.Holds() {
        PushSparesHeldSlot(cfg, w.s, w.p, w.g, choice.frame);
      }
    } else {
      GetKeepsBytes(cfg, w.s, w.g);
      if w.g.pc.CReduce? {
        ReduceFindsPush(cfg, w, labels);
      }
    }
  }

  /** A push has taken effect after a step exactly when it had before or this step is its commit. */
  lemma PushCommits(cfg: Config, s: Shared, p: PushThread, frame: Frame)
    requires TypedShared(cfg, s) && TypedPush(cfg, p) && PushStep(cfg, s, p, frame).Some?
    ensures var (_, p', l) := PushStep(cfg, s, p, frame).value;
            p'.Advanced() && !p'.Pending() ==>
              && p'.frame == p.frame
              && ((p.Advanced() && !p.Pending()) || (l.Commit? && l.frame == Stored(p.frame, cfg.mframeLen)))
  {
  }

  /** The frame of a push that has taken effect is among the pushes. */
  lemma CommittedIsPushed(cfg: Config, w: World, labels: seq<Label>, choice: Choice)
    requires Owned(cfg, w.s, w.p, w.g) && Step(cfg, w, choice).Some?
    requires w.p.Advanced() && !w.p.Pending() ==> Stored(w.p.frame, cfg.mframeLen) in Pushes(Trace(labels))
    ensures var (w', l) := Step(cfg, w, choice).value;
            w'.p.Advanced() && !w'.p.Pending() ==> Stored(w'.p.frame, cfg.mframeLen) in Pushes(Trace(labels + [l]))
  {
    LabelStep(labels, Step(cfg, w, choice).value.1);
    if choice.Produce? {
      PushCommits(cfg, w.s, w.p, choice.frame);
    }
  }

  lemma OnlyPushesInQueue(cfg: Config, labels: seq<Label>)
    requires 0 < cfg.maxFrames && After(cfg.maxFrames, Trace(labels)).Some?
    ensures forall f | f in After(cfg.maxFrames, Trace(labels)).value :: f in Pushes(Trace(labels))
  {
    Accounting(cfg.maxFrames, Trace(labels));
  }

  lemma FullCommit(cfg: Config, w: World, choice: Choice)
    requires Step(cfg, w, choice).Some?
    requires var (w', l) := Step(cfg, w, choice).value; l.Commit? && l.full
    ensures w.p.pc.PIncrease? && w.s.eff == cfg.maxFrames
            && Step(cfg, w, choice).value.0 == w.(p := w.p.(pc := PTrywait))
  {
  }

  /** The first push that finds the ring full: from now on every slot comes from a push. */
  lemma FirstOverwrite(cfg: Config, w: World, labels: seq<Label>, choice: Choice)
    requires QuietSoFar(cfg, w, labels) && Step(cfg, w, choice).Some?
    requires var (w', l) := Step(cfg, w, choice).value; l.Commit? && l.full
    ensures var (w', l) := Step(cfg, w, choice).value;
            Typed(cfg, w') && AllFromPushes(w'.s, Pushes(Trace(labels)))
  {
    FullCommit(cfg, w, choice);
    OnlyPushesInQueue(cfg, labels);
    FullMeansAllFromPushes(cfg, w, After(cfg.maxFrames, Trace(labels)).value, Pushes(Trace(labels)));
  }

  /** The memory part of Provenance after one step. */
  lemma StepKeepsMemory(cfg: Config, w: World, labels: seq<Label>, choice: Choice)
    requires Owned(cfg, w.s, w.p, w.g) && Provenance(cfg, w, labels) && Step(cfg, w, choice).Some?
    ensures var (w', l) := Step(cfg, w, choice).value;
            Typed(cfg, w') && (AllFromPushes(w'.s, Pushes(Trace(labels))) || QuietSoFar(cfg, w', labels + [l]))
  {
    var l := Step(cfg, w, choice).value.1;
    if AllFromPushes(w.s, Pushes(Trace(labels))) {
      AllFromPushesIsStable(cfg, w, choice, Pushes(Trace(labels)));
    } else if l.Commit? && l.full {
      FirstOverwrite(cfg, w, labels, choice);
    } else {
      QuietMore(cfg, w, labels, choice);
    }
  }

  lemma StepKeepsProvenance(cfg: Config, w: World, labels: seq<Label>, choice: Choice)
    requires Owned(cfg, w.s, w.p, w.g) && Provenance(cfg, w, labels) && Step(cfg, w, choice).Some?
    ensures var (w', l) := Step(cfg, w, choice).value;
            Owned(cfg, w'.s, w'.p, w'.g) && Provenance(cfg, w', labels + [l])
  {
    var (w', l) := Step(cfg, w, choice).value;
    StepKeepsMemory(cfg, w, labels, choice);
    TakenComesFromPush(cfg, w, labels, choice);
    CommittedIsPushed(cfg, w, labels, choice);
    StepsKeepOwned(cfg, w.s, w.p, w.g, if choice.Produce? then choice.frame else []);
    LabelStep(labels, l);
    var pushed, pushed' := Pushes(Trace(labels)), Pushes(Trace(labels + [l]));
    assert forall f | f in pushed :: f in pushed';
    assert AllFromPushes(w'.s, pushed) ==> AllFromPushes(w'.s, pushed');
  }

  lemma {:induction false} RunKeepsProvenance(cfg: Config, w: World, schedule: seq<Choice>)
    requires Init(cfg, w) && Run(cfg, w, schedule).Some?
    ensures var (w', labels) := Run(cfg, w, schedule).value;
            Owned(cfg, w'.s, w'.p, w'.g) && Provenance(cfg, w', labels)
  {
    if schedule != [] {
      var prefix := schedule[..|schedule| - 1];
      RunKeepsProvenance(cfg, w, prefix);
      var (v, before) := Run(cfg, w, prefix).value;
      StepKeepsProvenance(cfg, v, before, schedule[|schedule| - 1]);
    } else {
      assert WorldSim(cfg, w, []);
    }
  }

  /** The borrow is the same, and so are its slot's bytes and length; the borrower holds the slot. */
  predicate SameBorrow(w: World, w': World) {
    && w'.g == w.g && w.g.slot < |w.s.data| == |w'.s.data| == |w.s.datalen| == |w'.s.datalen| == |w'.s.owner|
    && w'.s.data[w.g.slot] == w.s.data[w.g.slot] && w'.s.datalen[w.g.slot] == w.s.datalen[w.g.slot]
    && w'.s.owner[w.g.slot] == Consumer
  }

  lemma PushKeepsBorrow(cfg: Config, w: World, frame: Frame)
    requires Owned(cfg, w.s, w.p, w.g) && w.g.Holds() && Step(cfg, w, Produce(frame)).Some?
    ensures SameBorrow(w, Step(cfg, w, Produce(frame)).value.0)
  {
    PushKeepsLocks(cfg, w.s, w.p, w.g, frame);
  }

  /** Until the borrower moves, its slot, its length and its bytes stay as they are, whatever is pushed. */
  lemma {:induction false} BorrowIsStable(cfg: Config, w: World, schedule: seq<Choice>, pushing: seq<Choice>)
    requires Init(cfg, w) && Run(cfg, w, schedule + pushing).Some? && Run(cfg, w, schedule).Some?
    requires forall c | c in pushing :: c.Produce?
    requires Run(cfg, w, schedule).value.0.g.pc.CBorrowed?
    ensures SameBorrow(Run(cfg, w, schedule).value.0, Run(cfg, w, schedule + pushing).value.0)
  {
    if pushing == [] {
      assert schedule + pushing == schedule;
      RunKeepsOwned(cfg, w, schedule);
    } else {
      var fewer, last := pushing[..|pushing| - 1], pushing[|pushing| - 1];
      assert last in pushing && forall c | c in fewer :: c in pushing;
      assert (schedule + pushing)[..|schedule + pushing| - 1] == schedule + fewer;
      BorrowIsStable(cfg, w, schedule, fewer);
      RunKeepsOwned(cfg, w, schedule + fewer);
      PushKeepsBorrow(cfg, Run(cfg, w, schedule + fewer).value.0, last.frame);
    }
  }

  /** The frames given to the pushes this run has started, in order. */
  function Started(cfg: Config, w: World, schedule: seq<Choice>): seq<Frame>
    requires Run(cfg, w, schedule).Some?
  {
    if schedule == [] then [] else
    var prefix, choice := schedule[..|schedule| - 1], schedule[|schedule| - 1];
    Started(cfg, w, prefix) +
    if choice.Produce? && Run(cfg, w, prefix).value.0.p.pc.PIdle? then [choice.frame] else []
  }

  /** A push is under way and has not taken effect. */
  predicate Uncommitted(p: PushThread) {
    !p.pc.PIdle? && (!p.Advanced() || p.Pending())
  }

  /** The committed pushes are the started ones, cut to one slot; at most the last one is still to come. */
  predicate Accounted(cfg: Config, p: PushThread, started: seq<Frame>, pushed: seq<Frame>) {
    && |started| == |pushed| + Count(Uncommitted(p))
    && (Uncommitted(p) ==> started[|pushed|] == p.frame)
    && forall i | 0 <= i < |pushed| :: pushed[i] == started[i][..Min(|started[i]|, cfg.mframeLen)]
  }

  lemma PushKeepsAccounted(cfg: Config, s: Shared, p: PushThread, frame: Frame, started: seq<Frame>, pushed: seq<Frame>)
    requires TypedShared(cfg, s) && TypedPush(cfg, p) && PushStep(cfg, s, p, frame).Some?
    requires Accounted(cfg, p, started, pushed)
    ensures var (s', p', l) := PushStep(cfg, s, p, frame).value;
            Accounted(cfg, p', started + (if p.pc.PIdle? then [frame] else []),
                      pushed + if l.Commit? then [l.frame] else [])
  {
  }

  /** One step of either thread: what is started now, and what takes effect now. */
  lemma StepKeepsAccounted(cfg: Config, w: World, choice: Choice, started: seq<Frame>, labels: seq<Label>)
    requires Typed(cfg, w) && Step(cfg, w, choice).Some? && Accounted(cfg, w.p, started, Pushes(Trace(labels)))
    ensures var (w', l) := Step(cfg, w, choice).value;
            Accounted(cfg, w'.p, started + (if choice.Produce? && w.p.pc.PIdle? then [choice.frame] else []),
                      Pushes(Trace(labels + [l])))
  {
    var (w', l) := Step(cfg, w, choice).value;
    LabelStep(labels, l);
    if choice.Produce? {
      PushKeepsAccounted(cfg, w.s, w.p, choice.frame, started, Pushes(Trace(labels)));
    } else {
      assert started + [] == started && Pushes(Trace(labels)) + [] == Pushes(Trace(labels));
    }
  }

  /** The pushes of the trace are the frames the caller pushed, each cut to one slot, in order. */
  lemma {:induction false} PushesAreTheCallers(cfg: Config, w: World, schedule: seq<Choice>)
    requires Init(cfg, w) && Run(cfg, w, schedule).Some?
    ensures var (w', labels) := Run(cfg, w, schedule).value;
            Accounted(cfg, w'.p, Started(cfg, w, schedule), Pushes(Trace(labels)))
  {
    if schedule != [] {
      var prefix, choice := schedule[..|schedule| - 1], schedule[|schedule| - 1];
      PushesAreTheCallers(cfg, w, prefix);
      var (v, before) := Run(cfg, w, prefix).value;
      StepKeepsAccounted(cfg, v, choice, Started(cfg, w, prefix), before);
    }
  }

  /**
    In every interleaving, overwriting ones included, the bytes behind a borrow are
    the first bytes, as many as fit a slot, of one frame that the caller pushed, and
    never a mix of two.
  */
  lemma BorrowIsOnePush(cfg: Config, w: World, schedule: seq<Choice>)
    requires Init(cfg, w) && Run(cfg, w, schedule).Some? && Run(cfg, w, schedule).value.0.g.pc.CBorrowed?
    ensures Typed(cfg, Run(cfg, w, schedule).value.0)
    ensures var w' := Run(cfg, w, schedule).value.0;
            exists f | f in Started(cfg, w, schedule) ::
              w'.s.data[w'.g.slot][..w'.g.len] == f[..Min(|f|, cfg.mframeLen)]
  {
    RunKeepsProvenance(cfg, w, schedule);
    PushesAreTheCallers(cfg, w, schedule);
    var (w', labels) := Run(cfg, w, schedule).value;
    var started, pushed := Started(cfg, w, schedule), Pushes(Trace(labels));
    var i :| 0 <= i < |pushed| && pushed[i] == w'.s.Content(w'.g.slot);
    assert started[i] in started;
  }

  /** What a push leaves in its slot, whatever the other thread did meanwhile. */
  lemma PushStoresItsFrame(cfg: Config, w: World, schedule: seq<Choice>)
    requires Init(cfg, w) && Run(cfg, w, schedule).Some? && Run(cfg, w, schedule).value.0.p.pc.PUnlock?
    ensures Typed(cfg, Run(cfg, w, schedule).value.0)
    ensures var w' := Run(cfg, w, schedule).value.0;
            var n := Min(|w'.p.frame|, cfg.mframeLen);
            w'.s.datalen[w'.p.slot] == n && forall j | 0 <= j < n :: w'.s.data[w'.p.slot][j] == w'.p.frame[j]
  {
    RunKeepsOwned(cfg, w, schedule);
    var w' := Run(cfg, w, schedule).value.0;
    var n := Min(|w'.p.frame|, cfg.mframeLen);
    assert w'.s.Content(w'.p.slot) == w'.p.frame[..n];
    forall j | 0 <= j < n
      ensures w'.s.data[w'.p.slot][j] == w'.p.frame[j]
    {
      assert w'.s.Content(w'.p.slot)[j] == w'.p.frame[..n][j];
    }
  }
}
