/**
  CQueue shared by two threads: one thread calls push, the other getbuffer and
  releasebuffer. Every lock, unlock, semaphore operation, index operation and
  every byte of the memcpy is one step, and a schedule decides who moves next.
  The index helpers hold mIndexlock only around one update, so each is one step.
*/
module CQueueThreads {
  import opened Common
  import opened DropOldest
  import opened CQueue

  /** atomicTake makes "read mOutindex and lock that slot" one step of getbuffer; the source has two. */
  datatype Config = Config(maxFrames: nat, mframeLen: nat, atomicTake: bool)

  datatype Owner = Free | Producer | Consumer

  /** The shared object: lock, length and bytes of every slot, and the counters. */
  datatype Shared = Shared(
    owner: seq<Owner>, datalen: seq<nat>, data: seq<seq<Byte>>, inx: nat, outx: nat, eff: nat, sem: nat)
  {
    /** The frame slot i holds. */
    function Content(i: nat): Frame
      requires i < |datalen| == |data| && datalen[i] <= |data[i]|
    {
      data[i][..datalen[i]]
    }
  }

  /** Where the pushing thread is in push, and its locals. */
  datatype PushPc = PIdle | PLock | PCopy | PSetLen | PAddIn | PPost | PIncrease | PTrywait | PAddOut | PUnlock
  datatype PushThread = PushThread(pc: PushPc, slot: nat, frame: Frame, copied: nat) {
    predicate Holds() {
      !pc.PIdle? && !pc.PLock?
    }

    /** The frame is completely in its slot. */
    predicate Written() {
      Holds() && !pc.PCopy? && !pc.PSetLen?
    }

    /** mInindex has moved past the slot. */
    predicate Advanced() {
      Written() && !pc.PAddIn?
    }

    /** mInindex has moved but the push has not taken effect yet. */
    predicate Pending() {
      pc.PPost? || pc.PIncrease?
    }

    /** The push found the ring full and has not moved mOutindex yet. */
    predicate Dropping() {
      pc.PTrywait? || pc.PAddOut?
    }
  }

  /** Where the other thread is in getbuffer, or with a borrowed slot, and its locals. */
  datatype GetPc = CWait | CReadIndex | CLock | CReduce | CTake | CAdvance | CNoData | CBorrowed
  datatype GetThread = GetThread(pc: GetPc, slot: nat, len: nat) {
    predicate Holds() {
      !pc.CWait? && !pc.CReadIndex? && !pc.CLock?
    }

    /** The semaphore has been taken but not the counter. */
    predicate Pending() {
      pc.CReadIndex? || pc.CLock? || pc.CReduce?
    }

    /** The counter has been taken but mOutindex has not moved yet. */
    predicate Taking() {
      pc.CTake? || pc.CAdvance?
    }
  }

  /** What a step shows outside: a push taking effect, a frame handed over, or getbuffer returning -1. */
  datatype Label = Silent | Commit(frame: Frame, full: bool) | Deliver(frame: Frame) | NoData

  predicate TypedShared(cfg: Config, s: Shared) {
    && 0 < cfg.maxFrames == |s.owner| == |s.datalen| == |s.data|
    && s.inx < cfg.maxFrames && s.outx < cfg.maxFrames && s.eff <= cfg.maxFrames
    && (forall i | 0 <= i < |s.data| :: |s.data[i]| == cfg.mframeLen)
    && (forall i | 0 <= i < |s.datalen| :: s.datalen[i] <= cfg.mframeLen)
  }

  predicate TypedPush(cfg: Config, p: PushThread) {
    p.slot < cfg.maxFrames && p.copied <= |Stored(p.frame, cfg.mframeLen)|
  }

  predicate TypedGet(cfg: Config, g: GetThread) {
    g.slot < cfg.maxFrames && g.len <= cfg.mframeLen
  }

  /** One step of push; the frame is used when a new push starts. None: blocked on a slot lock. */
  function PushStep(cfg: Config, s: Shared, p: PushThread, frame: Frame): Option<(Shared, PushThread, Label)>
    requires TypedShared(cfg, s) && TypedPush(cfg, p)
  {
    var f := Stored(p.frame, cfg.mframeLen);
    match p.pc
    case PIdle => Some((s, PushThread(PLock, s.inx, frame, 0), Silent))
    case PLock =>
      if s.owner[p.slot].Free? then Some((s.(owner := s.owner[p.slot := Producer]), p.(pc := PCopy), Silent)) else None
    case PCopy =>
      if p.copied < |f| then
        Some((s.(data := s.data[p.slot := s.data[p.slot][p.copied := f[p.copied]]]), p.(copied := p.copied + 1),
            Silent))
      else
        Some((s, p.(pc := PSetLen), Silent))
    case PSetLen => Some((s.(datalen := s.datalen[p.slot := |f|]), p.(pc := PAddIn), Silent))
    case PAddIn => Some((s.(inx := LoopAdd(s.inx, cfg.maxFrames)), p.(pc := PPost), Silent))
    case PPost => Some((s.(sem := s.sem + 1), p.(pc := PIncrease), Silent))
    case PIncrease =>
      if s.eff == cfg.maxFrames then Some((s, p.(pc := PTrywait), Commit(f, true)))
      else Some((s.(eff := s.eff + 1), p.(pc := PUnlock), Commit(f, false)))
    case PTrywait => Some((s.(sem := if s.sem == 0 then 0 else s.sem - 1), p.(pc := PAddOut), Silent))
    case PAddOut => Some((s.(outx := LoopAdd(s.outx, cfg.maxFrames)), p.(pc := PUnlock), Silent))
    case PUnlock => Some((s.(owner := s.owner[p.slot := Free]), p.(pc := PIdle), Silent))
  }

  /** One step of getbuffer or releasebuffer. None: blocked on the semaphore or on a slot lock. */
  function GetStep(cfg: Config, s: Shared, g: GetThread): Option<(Shared, GetThread, Label)>
    requires TypedShared(cfg, s) && TypedGet(cfg, g)
  {
    match g.pc
    case CWait => if s.sem > 0 then Some((s.(sem := s.sem - 1), g.(pc := CReadIndex), Silent)) else None
    case CReadIndex =>
      if !cfg.atomicTake then Some((s, g.(slot := s.outx, pc := CLock), Silent))
      else if s.owner[s.outx].Free? then
        Some((s.(owner := s.owner[s.outx := Consumer]), g.(slot := s.outx, pc := CReduce), Silent))
      else None
    case CLock =>
      if s.owner[g.slot].Free? then Some((s.(owner := s.owner[g.slot := Consumer]), g.(pc := CReduce), Silent))
          else None
    case CReduce =>
      if s.eff == 0 then Some((s, g.(pc := CNoData), Silent)) else Some((s.(eff := s.eff - 1), g.(pc := CTake), Silent))
    case CTake => Some((s, g.(len := s.datalen[g.slot], pc := CAdvance), Silent))
    case CAdvance =>
      Some((s.(outx := LoopAdd(s.outx, cfg.maxFrames)), g.(pc := CBorrowed), Deliver(s.data[g.slot][..g.len])))
    case CNoData => Some((s.(owner := s.owner[g.slot := Free]), g.(pc := CWait), NoData))
    case CBorrowed => Some((s.(owner := s.owner[g.slot := Free]), g.(pc := CWait), Silent))
  }

  // What every interleaving keeps: who holds which lock, and what has been copied so far.

  function Holder(p: PushThread, g: GetThread, i: nat): Owner {
    if p.Holds() && i == p.slot then Producer else if g.Holds() && i == g.slot then Consumer else Free
  }

  /** A slot lock is held exactly by the thread that is inside its critical section. */
  predicate Locks(cfg: Config, s: Shared, p: PushThread, g: GetThread) {
    && TypedShared(cfg, s) && TypedPush(cfg, p) && TypedGet(cfg, g)
    && !(p.Holds() && g.Holds() && p.slot == g.slot)
    && forall i | 0 <= i < |s.owner| :: s.owner[i] == Holder(p, g, i)
  }

  /** What the pushing thread has done to its slot so far. */
  predicate PushProgress(cfg: Config, s: Shared, p: PushThread)
    requires TypedShared(cfg, s) && TypedPush(cfg, p)
  {
    var f := p.frame[..Min(|p.frame|, cfg.mframeLen)];
    && (p.pc.PLock? ==> p.copied == 0)
    && (p.pc.PCopy? ==> s.data[p.slot][..p.copied] == f[..p.copied])
    && (p.pc.PSetLen? ==> s.data[p.slot][..|f|] == f)
    && (p.Written() ==> s.Content(p.slot) == f)
    && (!p.pc.PIdle? && !p.Advanced() ==> p.slot == s.inx)
    && (p.Advanced() ==> s.inx == LoopAdd(p.slot, cfg.maxFrames))
  }

  predicate GetProgress(cfg: Config, s: Shared, g: GetThread)
    requires TypedShared(cfg, s) && TypedGet(cfg, g)
  {
    g.pc.CAdvance? || g.pc.CBorrowed? ==> g.len == s.datalen[g.slot]
  }

  predicate Owned(cfg: Config, s: Shared, p: PushThread, g: GetThread) {
    Locks(cfg, s, p, g) && PushProgress(cfg, s, p) && GetProgress(cfg, s, g)
  }

  lemma PushKeepsLocks(cfg: Config, s: Shared, p: PushThread, g: GetThread, frame: Frame)
    requires Locks(cfg, s, p, g) && PushStep(cfg, s, p, frame).Some?
    ensures var (s', p', l) := PushStep(cfg, s, p, frame).value; Locks(cfg, s', p', g)
  {
  }

  lemma PushKeepsProgress(cfg: Config, s: Shared, p: PushThread, frame: Frame)
    requires TypedShared(cfg, s) && TypedPush(cfg, p) && PushProgress(cfg, s, p) && PushStep(cfg, s, p, frame).Some?
    ensures var (s', p', l) := PushStep(cfg, s, p, frame).value;
            TypedShared(cfg, s') && TypedPush(cfg, p') && PushProgress(cfg, s', p')
  {
    var (s', p', l) := PushStep(cfg, s, p, frame).value;
    var f := Stored(p.frame, cfg.mframeLen);
    if p.pc.PLock? {
      assert s'.data[p.slot][..0] == f[..0];
    } else if p.pc.PCopy? {
      if p.copied < |f| {
        assert s'.data[p.slot][..p'.copied] == s.data[p.slot][..p.copied] + [f[p.copied]] == f[..p'.copied];
      } else {
        assert f[..p.copied] == f;
      }
    }
  }

  lemma GetKeepsLocks(cfg: Config, s: Shared, p: PushThread, g: GetThread)
    requires Locks(cfg, s, p, g) && GetStep(cfg, s, g).Some?
    ensures var (s', g', l) := GetStep(cfg, s, g).value; Locks(cfg, s', p, g')
  {
  }

  lemma PushKeepsOwned(cfg: Config, s: Shared, p: PushThread, g: GetThread, frame: Frame)
    requires Owned(cfg, s, p, g) && PushStep(cfg, s, p, frame).Some?
    ensures var (s', p', l) := PushStep(cfg, s, p, frame).value; Owned(cfg, s', p', g)
  {
    PushKeepsLocks(cfg, s, p, g, frame);
    PushKeepsProgress(cfg, s, p, frame);
  }

  lemma GetKeepsOwned(cfg: Config, s: Shared, p: PushThread, g: GetThread)
    requires Owned(cfg, s, p, g) && GetStep(cfg, s, g).Some?
    ensures var (s', g', l) := GetStep(cfg, s, g).value; Owned(cfg, s', p, g')
  {
    GetKeepsLocks(cfg, s, p, g);
  }

  /** Neither thread disturbs what the other one has done under its slot lock. */
  lemma StepsKeepOwned(cfg: Config, s: Shared, p: PushThread, g: GetThread, frame: Frame)
    requires Owned(cfg, s, p, g)
    ensures PushStep(cfg, s, p, frame).Some? ==>
              var (s', p', l) := PushStep(cfg, s, p, frame).value; Owned(cfg, s', p', g)
    ensures GetStep(cfg, s, g).Some? ==>
              var (s', g', l) := GetStep(cfg, s, g).value; Owned(cfg, s', p, g')
  {
    if PushStep(cfg, s, p, frame).Some? {
      PushKeepsOwned(cfg, s, p, g, frame);
    }
    if GetStep(cfg, s, g).Some? {
      GetKeepsOwned(cfg, s, p, g);
    }
  }

  /**
    No deadlock: a thread that waits for a slot lock waits for the other thread,
    and that other thread is able to move. So some thread can always move.
  */
  lemma SomeThreadCanMove(cfg: Config, s: Shared, p: PushThread, g: GetThread, frame: Frame)
    requires Owned(cfg, s, p, g)
    ensures PushStep(cfg, s, p, frame).Some? || GetStep(cfg, s, g).Some?
    ensures PushStep(cfg, s, p, frame).None? ==> s.owner[p.slot].Consumer?
    ensures GetStep(cfg, s, g).None? && s.sem > 0 ==> p.Holds()
  {
  }
}
