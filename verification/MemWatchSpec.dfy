/**
  The bookkeeping of memwatch.cpp on values: the blocks known to the chain,
  newest first, the redundant counters, and the statistics list, through any
  sequence of mwMalloc, mwFree and mwRealloc on an undamaged heap.
*/
module MemWatchSpec {
  import opened Common
  import opened HeapRepair

  type FileName = Option<string>

  /** A size a C allocation can have: it fits a signed long. */
  type Size = n: nat | n < 0x8000_0000_0000_0000

  datatype Info = Info(file: FileName, line: int, size: Size, count: nat, nml: bool)

  /** One mwStat entry: a module when line is -1, otherwise one line of a module. */
  datatype Stat = Stat(file: FileName, line: int, total: int, num: int, max: int, curr: int)

  /** What stays fixed during a run: whether freed memory is kept as no-man's-land, the statistics level, the limit. */
  datatype Config = Config(keepNml: bool, statLevel: nat, useLimit: bool, allocLimit: int)

  datatype Heap = Heap(
    blocks: seq<Info>, counter: nat,
    numCur: int, statCur: int, statTot: int, statMax: int, statNum: int, nmlNum: int, nmlCur: int,
    stats: seq<Stat>)

  const EMPTY := Heap([], 0, 0, 0, 0, 0, 0, 0, 0, [])

  // Statistics.

  /** mwStatGet's search: the first entry with this file and line, or the length of the list. */
  function Find(stats: seq<Stat>, file: FileName, line: int): nat {
    if stats == [] then 0
    else if stats[0].line == line && stats[0].file == file then 0
    else 1 + Find(stats[1..], file, line)
  }

  lemma {:induction false} FindIsFirst(stats: seq<Stat>, file: FileName, line: int)
    ensures var i := Find(stats, file, line);
            && i <= |stats|
            && (i < |stats| ==> stats[i].file == file && stats[i].line == line)
            && forall j | 0 <= j < i :: !(stats[j].file == file && stats[j].line == line)
  {
    if stats != [] {
      FindIsFirst(stats[1..], file, line);
    }
  }

  /** The line mwStatGet really looks for. */
  function EffectiveLine(statLevel: nat, line: int): int {
    if statLevel < 2 then -1 else line
  }

  /** mwStatGet with makenew: the list, with a new entry in front when there was none, and the entry's place. */
  function StatGet(stats: seq<Stat>, statLevel: nat, file: FileName, line: int): (seq<Stat>, nat) {
    var l := EffectiveLine(statLevel, line);
    var i := Find(stats, file, l);
    if i < |stats| then (stats, i) else ([Stat(file, l, 0, 0, 0, 0)] + stats, 0)
  }

  function Grown(s: Stat, size: Size): Stat {
    s.(total := s.total + size, curr := s.curr + size, num := s.num + 1,
       max := if s.curr + size > s.max then s.curr + size else s.max)
  }

  function GrowEntry(stats: seq<Stat>, statLevel: nat, size: Size, file: FileName, line: int): seq<Stat> {
    var (list, i) := StatGet(stats, statLevel, file, line);
    if i < |list| then list[i := Grown(list[i], size)] else list
  }

  function ShrinkEntry(stats: seq<Stat>, statLevel: nat, size: Size, file: FileName, line: int): seq<Stat> {
    var (list, i) := StatGet(stats, statLevel, file, line);
    if i < |list| then list[i := list[i].(curr := list[i].curr - size)] else list
  }

  function StatAlloc(stats: seq<Stat>, statLevel: nat, size: Size, file: FileName, line: int): seq<Stat> {
    var modules := GrowEntry(stats, statLevel, size, file, -1);
    if statLevel > 1 && line != -1 && file.Some? then GrowEntry(modules, statLevel, size, file, line) else modules
  }

  function StatFree(stats: seq<Stat>, statLevel: nat, size: Size, file: FileName, line: int): seq<Stat> {
    var modules := ShrinkEntry(stats, statLevel, size, file, -1);
    if statLevel > 1 && line != -1 && file.Some? then ShrinkEntry(modules, statLevel, size, file, line) else modules
  }

  // Operations.

  /** The limit test of mwMalloc. */
  predicate OverLimit(cfg: Config, h: Heap, size: Size) {
    cfg.useLimit && size + h.statCur > cfg.allocLimit
  }

  /** The counters and statistics after a new block. */
  function Counted(cfg: Config, h: Heap, size: Size, file: FileName, line: int): Heap {
    var cur := h.statCur + size;
    h.(numCur := h.numCur + 1, statCur := cur, statTot := h.statTot + size, statNum := h.statNum + 1,
       statMax := if cur > h.statMax then cur else h.statMax,
       stats := if cfg.statLevel > 0 then StatAlloc(h.stats, cfg.statLevel, size, file, line) else h.stats)
  }

  /** mwCounter moves on with every call. */
  function Ticked(h: Heap): Heap {
    h.(counter := h.counter + 1)
  }

  function Placed(h: Heap, b: Info): Heap {
    h.(blocks := [b] + h.blocks)
  }

  /** mwMalloc past its limit test: the new block is the first of the list. */
  function Granted(cfg: Config, h: Heap, size: Size, file: FileName, line: int): Heap {
    Counted(cfg, Placed(Ticked(h), Info(file, line, size, h.counter + 1, false)), size, file, line)
  }

  /** mwMalloc: the heap afterwards, and whether it gave a block. */
  function Malloc(cfg: Config, h: Heap, size: Size, file: FileName, line: int): (Heap, bool) {
    if OverLimit(cfg, h, size) then (Ticked(h), false) else (Granted(cfg, h, size, file, line), true)
  }

  /** The counters and statistics without a block. */
  function Uncounted(cfg: Config, h: Heap, b: Info): Heap {
    h.(numCur := h.numCur - 1, statCur := h.statCur - b.size,
       stats := if cfg.statLevel > 0 then StatFree(h.stats, cfg.statLevel, b.size, b.file, b.line) else h.stats)
  }

  function MarkedNml(h: Heap, k: nat): Heap
    requires k < |h.blocks|
  {
    var b := h.blocks[k];
    h.(blocks := h.blocks[k := b.(nml := true)], nmlNum := h.nmlNum + 1, nmlCur := h.nmlCur + b.size)
  }

  /** Block k gives up its bytes: it becomes no-man's-land or leaves the chain. */
  function Drop(cfg: Config, h: Heap, k: nat): Heap
    requires k < |h.blocks|
  {
    var freed := Uncounted(cfg, h, h.blocks[k]);
    if cfg.keepNml then MarkedNml(freed, k) else freed.(blocks := Without(h.blocks, k))
  }

  /** mwFree of block k. A block that is no-man's-land already counts as freed twice and changes nothing. */
  function Free(cfg: Config, h: Heap, k: nat): Heap
    requires k < |h.blocks|
  {
    if h.blocks[k].nml then Ticked(h) else Drop(cfg, Ticked(h), k)
  }

  /** mwFree of a null pointer or of one that memwatch does not own. */
  function FreeForeign(h: Heap): Heap {
    Ticked(h)
  }

  /** mwRealloc of block k to a size above zero: the heap, and whether it gave a block. */
  function Realloc(cfg: Config, h: Heap, k: nat, size: Size, file: FileName, line: int): (Heap, bool)
    requires k < |h.blocks|
  {
    if h.blocks[k].nml then (h, false)
    else if cfg.useLimit && size + h.statCur - h.blocks[k].size > cfg.allocLimit then (Ticked(h), false)
    else
      var unlimited := cfg.(useLimit := false);
      (Free(unlimited, Granted(unlimited, h, size, file, line), k + 1), true)
  }

  datatype Op =
    | DoMalloc(size: Size, file: FileName, line: int)
    | DoFree(k: nat)
    | DoFreeForeign
    | DoRealloc(k: nat, size: Size, file: FileName, line: int)

  predicate Possible(h: Heap, op: Op) {
    (op.DoFree? || op.DoRealloc? ==> op.k < |h.blocks|) && (op.DoRealloc? ==> op.size > 0)
  }

  function Apply(cfg: Config, h: Heap, op: Op): Heap
    requires Possible(h, op)
  {
    match op
    case DoMalloc(size, file, line) => Malloc(cfg, h, size, file, line).0
    case DoFree(k) => Free(cfg, h, k)
    case DoFreeForeign => FreeForeign(h)
    case DoRealloc(k, size, file, line) => Realloc(cfg, h, k, size, file, line).0
  }

  /** mwCounter counts calls: a reallocation that moves a block counts twice, one of no-man's-land not at all. */
  lemma CallsAreCounted(cfg: Config, h: Heap, op: Op)
    requires Possible(h, op)
    ensures Apply(cfg, h, op).counter == h.counter +
            if !op.DoRealloc? then 1
            else if h.blocks[op.k].nml then 0
            else if cfg.useLimit && op.size + h.statCur - h.blocks[op.k].size > cfg.allocLimit then 1
            else 2
  {
    if op.DoRealloc? {
      assert Granted(cfg.(useLimit := false), h, op.size, op.file, op.line).blocks[op.k + 1] == h.blocks[op.k];
    }
  }

  predicate AllPossible(cfg: Config, h: Heap, ops: seq<Op>)
    decreases |ops|
  {
    ops == [] || (Possible(h, ops[0]) && AllPossible(cfg, Apply(cfg, h, ops[0]), ops[1..]))
  }

  function Run(cfg: Config, h: Heap, ops: seq<Op>): Heap
    requires AllPossible(cfg, h, ops)
    decreases |ops|
  {
    if ops == [] then h else Run(cfg, Apply(cfg, h, ops[0]), ops[1..])
  }

  // The counters against the blocks.

  /** How many blocks have this NML flag. */
  function CountOf(blocks: seq<Info>, nml: bool): nat {
    if blocks == [] then 0 else (if blocks[0].nml == nml then 1 else 0) + CountOf(blocks[1..], nml)
  }

  function SizeOf(blocks: seq<Info>, nml: bool): nat {
    if blocks == [] then 0 else (if blocks[0].nml == nml then blocks[0].size else 0) + SizeOf(blocks[1..], nml)
  }

  lemma {:induction false} RemoveOne(blocks: seq<Info>, k: nat, nml: bool)
    requires k < |blocks|
    ensures CountOf(Without(blocks, k), nml) == CountOf(blocks, nml) - (if blocks[k].nml == nml then 1 else 0)
    ensures SizeOf(Without(blocks, k), nml) == SizeOf(blocks, nml)
            - (if blocks[k].nml == nml then blocks[k].size else 0)
  {
    if k == 0 {
      assert Without(blocks, 0) == blocks[1..];
    } else {
      RemoveOne(blocks[1..], k - 1, nml);
      assert Without(blocks, k) == [blocks[0]] + Without(blocks[1..], k - 1);
    }
  }

  lemma {:induction false} MarkOne(blocks: seq<Info>, k: nat, nml: bool)
    requires k < |blocks| && !blocks[k].nml
    ensures var marked := blocks[k := blocks[k].(nml := true)];
            && CountOf(marked, nml) == CountOf(blocks, nml) + (if nml then 1 else -1)
            && SizeOf(marked, nml) == SizeOf(blocks, nml)
                + (if nml then blocks[k].size as int else -(blocks[k].size as int))
  {
    var marked := blocks[k := blocks[k].(nml := true)];
    if k == 0 {
      assert marked[1..] == blocks[1..];
    } else {
      MarkOne(blocks[1..], k - 1, nml);
      assert marked[1..] == blocks[1..][k - 1 := blocks[k].(nml := true)];
    }
  }

  /** Every redundant counter says what the chain says. */
  predicate CountersAgree(h: Heap) {
    && h.numCur == CountOf(h.blocks, false) && h.statCur == SizeOf(h.blocks, false)
    && h.nmlNum == CountOf(h.blocks, true) && h.nmlCur == SizeOf(h.blocks, true)
  }

  lemma FreeKeepsCounters(cfg: Config, h: Heap, k: nat)
    requires CountersAgree(h) && k < |h.blocks|
    ensures CountersAgree(Free(cfg, h, k))
  {
    if !h.blocks[k].nml {
      if cfg.keepNml {
        MarkOne(h.blocks, k, false);
        MarkOne(h.blocks, k, true);
      } else {
        RemoveOne(h.blocks, k, false);
        RemoveOne(h.blocks, k, true);
      }
    }
  }

  lemma MallocKeepsCounters(cfg: Config, h: Heap, size: Size, file: FileName, line: int)
    requires CountersAgree(h)
    ensures CountersAgree(Malloc(cfg, h, size, file, line).0)
  {
  }

  lemma ApplyKeepsCounters(cfg: Config, h: Heap, op: Op)
    requires CountersAgree(h) && Possible(h, op)
    ensures CountersAgree(Apply(cfg, h, op))
  {
    match op {
      case DoMalloc(size, file, line) => MallocKeepsCounters(cfg, h, size, file, line);
      case DoFree(k) => FreeKeepsCounters(cfg, h, k);
      case DoFreeForeign =>
      case DoRealloc(k, size, file, line) =>
        MallocKeepsCounters(cfg.(useLimit := false), h, size, file, line);
        FreeKeepsCounters(cfg.(useLimit := false), Malloc(cfg.(useLimit := false), h, size, file, line).0, k + 1);
    }
  }

  /** The largest amount in use at any moment of a run, the moment inside a reallocation included. */
  function Peak(cfg: Config, h: Heap, ops: seq<Op>): int
    requires AllPossible(cfg, h, ops)
    decreases |ops|
  {
    if ops == [] then h.statCur else
    Larger(h.statCur, Larger(During(cfg, h, ops[0]), Peak(cfg, Apply(cfg, h, ops[0]), ops[1..])))
  }

  function Larger(a: int, b: int): int {
    if a > b then a else b
  }

  /** mwStatCurAlloc between the two halves of an operation that has two. */
  function During(cfg: Config, h: Heap, op: Op): int
    requires Possible(h, op)
  {
    if op.DoRealloc? && Realloc(cfg, h, op.k, op.size, op.file, op.line).1 then h.statCur + op.size else h.statCur
  }

  /** One operation raises mwStatMaxAlloc exactly as far as it raised the amount in use on the way. */
  lemma ApplyTracksPeak(cfg: Config, h: Heap, op: Op)
    requires CountersAgree(h) && h.statCur <= h.statMax && Possible(h, op)
    ensures var g := Apply(cfg, h, op);
            g.statCur <= g.statMax == Larger(h.statMax, Larger(During(cfg, h, op), g.statCur))
  {
  }

  /** The counters agree with the blocks after any run, and mwStatMaxAlloc is the running maximum. */
  lemma {:induction false} CountersAgreeOverRuns(cfg: Config, h: Heap, ops: seq<Op>)
    requires CountersAgree(h) && h.statCur <= h.statMax && AllPossible(cfg, h, ops)
    ensures CountersAgree(Run(cfg, h, ops))
    ensures Run(cfg, h, ops).statMax == Larger(h.statMax, Peak(cfg, h, ops))
    decreases |ops|
  {
    if ops != [] {
      ApplyKeepsCounters(cfg, h, ops[0]);
      ApplyTracksPeak(cfg, h, ops[0]);
      CountersAgreeOverRuns(cfg, Apply(cfg, h, ops[0]), ops[1..]);
    }
  }

  // The statistics against the counters.

  /** The bytes the entries of a kind say are in use. */
  function SumWhere(stats: seq<Stat>, kind: (FileName, int) -> bool): int {
    if stats == [] then
      0
    else
      (if kind(stats[0].file, stats[0].line) then stats[0].curr else 0) + SumWhere(stats[1..], kind)
  }

  lemma {:induction false} ChangeOne(stats: seq<Stat>, i: nat, s: Stat, kind: (FileName, int) -> bool)
    requires i < |stats| && s.file == stats[i].file && s.line == stats[i].line
    ensures SumWhere(stats[i := s], kind) == SumWhere(stats, kind)
            + (if kind(s.file, s.line) then s.curr - stats[i].curr else 0)
  {
    if i == 0 {
      assert stats[i := s][1..] == stats[1..];
    } else {
      assert stats[i := s][1..] == stats[1..][i - 1 := s];
      ChangeOne(stats[1..], i - 1, s, kind);
    }
  }

  predicate NoDoubles(stats: seq<Stat>) {
    forall i, j | 0 <= i < j < |stats| :: !(stats[i].file == stats[j].file && stats[i].line == stats[j].line)
  }

  /** The entry found or made: the list is still without doubles and its sums are as before. */
  lemma EntryIsThere(stats: seq<Stat>, statLevel: nat, file: FileName, line: int, kind: (FileName, int) -> bool)
    requires NoDoubles(stats)
    ensures var (list, i) := StatGet(stats, statLevel, file, line);
            && NoDoubles(list) && SumWhere(list, kind) == SumWhere(stats, kind)
            && i < |list| && list[i].file == file && list[i].line == EffectiveLine(statLevel, line)
  {
    var l := EffectiveLine(statLevel, line);
    FindIsFirst(stats, file, l);
    if Find(stats, file, l) == |stats| {
      assert ([Stat(file, l, 0, 0, 0, 0)] + stats)[1..] == stats;
    }
  }

  lemma ReplaceEntry(list: seq<Stat>, i: nat, s: Stat, kind: (FileName, int) -> bool)
    requires NoDoubles(list) && i < |list| && s.file == list[i].file && s.line == list[i].line
    ensures NoDoubles(list[i := s])
    ensures SumWhere(list[i := s], kind) == SumWhere(list, kind)
            + if kind(s.file, s.line) then s.curr - list[i].curr else 0
  {
    ChangeOne(list, i, s, kind);
  }

  /** Growing or shrinking one entry, new or old, moves exactly the sums it belongs to. */
  lemma ChangeEntry(stats: seq<Stat>, statLevel: nat, size: Size, file: FileName, line: int,
                    kind: (FileName, int) -> bool)
    requires NoDoubles(stats)
    ensures var delta := if kind(file, EffectiveLine(statLevel, line)) then size as int else 0;
            var grown := GrowEntry(stats, statLevel, size, file, line);
            var shrunk := ShrinkEntry(stats, statLevel, size, file, line);
            && NoDoubles(grown) && SumWhere(grown, kind) == SumWhere(stats, kind) + delta
            && NoDoubles(shrunk) && SumWhere(shrunk, kind) == SumWhere(stats, kind) - delta
  {
    EntryIsThere(stats, statLevel, file, line, kind);
    var (list, i) := StatGet(stats, statLevel, file, line);
    ReplaceEntry(list, i, Grown(list[i], size), kind);
    ReplaceEntry(list, i, list[i].(curr := list[i].curr - size), kind);
  }

  function IsModule(): (FileName, int) -> bool {
    (f, l) => l == -1
  }

  function ModuleOf(file: FileName): (FileName, int) -> bool {
    (f, l) => l == -1 && f == file
  }

  function LinesOf(file: FileName): (FileName, int) -> bool {
    (f, l) => l != -1 && f == file
  }

  /**
    What the statistics promise: one entry per file and line, the modules together
    account for every byte in use, and at level 2 each module for its lines.
  */
  ghost predicate StatsAgree(cfg: Config, h: Heap) {
    && NoDoubles(h.stats)
    && SumWhere(h.stats, IsModule()) == h.statCur
    && (cfg.statLevel >= 2 ==>
          forall file: FileName :: SumWhere(h.stats, ModuleOf(file)) == SumWhere(h.stats, LinesOf(file)))
  }

  /** An allocation names a file and a line other than the one that stands for a module. */
  predicate Named(file: FileName, line: int) {
    file.Some? && line != -1
  }

  predicate AllNamed(h: Heap) {
    forall b | b in h.blocks :: Named(b.file, b.line)
  }

  lemma StatAllocAgrees(stats: seq<Stat>, statLevel: nat, size: Size, file: FileName, line: int,
                        kind: (FileName, int) -> bool)
    requires NoDoubles(stats) && Named(file, line) && statLevel > 0
    ensures var delta := (if kind(file, -1) then size as int else 0)
            + (if statLevel > 1 && kind(file, line) then size as int else 0);
            var grown := StatAlloc(stats, statLevel, size, file, line);
            var shrunk := StatFree(stats, statLevel, size, file, line);
            && NoDoubles(grown) && SumWhere(grown, kind) == SumWhere(stats, kind) + delta
            && NoDoubles(shrunk) && SumWhere(shrunk, kind) == SumWhere(stats, kind) - delta
  {
    ChangeEntry(stats, statLevel, size, file, -1, kind);
    if statLevel > 1 {
      ChangeEntry(GrowEntry(stats, statLevel, size, file, -1), statLevel, size, file, line, kind);
      ChangeEntry(ShrinkEntry(stats, statLevel, size, file, -1), statLevel, size, file, line, kind);
    }
  }

  lemma MallocKeepsStats(cfg: Config, h: Heap, size: Size, file: FileName, line: int)
    requires cfg.statLevel > 0 && StatsAgree(cfg, h) && AllNamed(h) && Named(file, line)
    ensures var g := Malloc(cfg, h, size, file, line).0; StatsAgree(cfg, g) && AllNamed(g)
  {
    StatAllocAgrees(h.stats, cfg.statLevel, size, file, line, IsModule());
    forall f: FileName
      ensures SumWhere(StatAlloc(h.stats, cfg.statLevel, size, file, line), ModuleOf(f))
              - SumWhere(h.stats, ModuleOf(f)) == if f == file then size as int else 0
      ensures SumWhere(StatAlloc(h.stats, cfg.statLevel, size, file, line), LinesOf(f)) - SumWhere(h.stats, LinesOf(f))
              == if f == file && cfg.statLevel > 1 then size as int else 0
    {
      StatAllocAgrees(h.stats, cfg.statLevel, size, file, line, ModuleOf(f));
      StatAllocAgrees(h.stats, cfg.statLevel, size, file, line, LinesOf(f));
    }
  }

  /** What freeing b moves: its own module's entry, and at level 2 one of that module's lines. */
  lemma StatFreeMoves(stats: seq<Stat>, statLevel: nat, b: Info, f: FileName)
    requires NoDoubles(stats) && Named(b.file, b.line) && statLevel > 0
    ensures var shrunk := StatFree(stats, statLevel, b.size, b.file, b.line);
            var delta := if f == b.file then b.size as int else 0;
            && SumWhere(shrunk, ModuleOf(f)) == SumWhere(stats, ModuleOf(f)) - delta
            && SumWhere(shrunk, LinesOf(f)) == SumWhere(stats, LinesOf(f)) - if statLevel > 1 then delta else 0
  {
    StatAllocAgrees(stats, statLevel, b.size, b.file, b.line, ModuleOf(f));
    StatAllocAgrees(stats, statLevel, b.size, b.file, b.line, LinesOf(f));
  }

  lemma FreeKeepsNamed(cfg: Config, h: Heap, k: nat)
    requires AllNamed(h) && k < |h.blocks|
    ensures AllNamed(Free(cfg, h, k))
  {
    assert h.blocks[k] in h.blocks;
  }

  lemma FreeKeepsStats(cfg: Config, h: Heap, k: nat)
    requires cfg.statLevel > 0 && StatsAgree(cfg, h) && AllNamed(h) && k < |h.blocks|
    ensures var g := Free(cfg, h, k); StatsAgree(cfg, g) && AllNamed(g)
  {
    var b := h.blocks[k];
    assert b in h.blocks;
    FreeKeepsNamed(cfg, h, k);
    StatAllocAgrees(h.stats, cfg.statLevel, b.size, b.file, b.line, IsModule());
    var shrunk := StatFree(h.stats, cfg.statLevel, b.size, b.file, b.line);
    forall f: FileName | cfg.statLevel >= 2
      ensures SumWhere(shrunk, ModuleOf(f)) == SumWhere(shrunk, LinesOf(f))
    {
      StatFreeMoves(h.stats, cfg.statLevel, b, f);
    }
  }

  predicate OpNamed(op: Op) {
    op.DoMalloc? || op.DoRealloc? ==> Named(op.file, op.line)
  }

  lemma ReallocKeepsStats(cfg: Config, h: Heap, k: nat, size: Size, file: FileName, line: int)
    requires cfg.statLevel > 0 && StatsAgree(cfg, h) && AllNamed(h) && k < |h.blocks| && Named(file, line)
    ensures var g := Realloc(cfg, h, k, size, file, line).0; StatsAgree(cfg, g) && AllNamed(g)
  {
    var unlimited := cfg.(useLimit := false);
    assert StatsAgree(unlimited, h);
    MallocKeepsStats(unlimited, h, size, file, line);
    FreeKeepsStats(unlimited, Malloc(unlimited, h, size, file, line).0, k + 1);
  }

  lemma ApplyKeepsStats(cfg: Config, h: Heap, op: Op)
    requires cfg.statLevel > 0 && StatsAgree(cfg, h) && AllNamed(h) && Possible(h, op) && OpNamed(op)
    ensures StatsAgree(cfg, Apply(cfg, h, op)) && AllNamed(Apply(cfg, h, op))
  {
    match op {
      case DoMalloc(size, file, line) => MallocKeepsStats(cfg, h, size, file, line);
      case DoFree(k) => FreeKeepsStats(cfg, h, k);
      case DoFreeForeign =>
      case DoRealloc(k, size, file, line) => ReallocKeepsStats(cfg, h, k, size, file, line);
    }
  }

  /**
    With the level fixed from the start, the statistics agree with the heap after
    any run of allocations, frees and reallocations.
  */
  lemma {:induction false} StatsAgreeOverRuns(cfg: Config, h: Heap, ops: seq<Op>)
    requires cfg.statLevel > 0 && StatsAgree(cfg, h) && AllNamed(h)
    requires AllPossible(cfg, h, ops) && forall op | op in ops :: OpNamed(op)
    ensures StatsAgree(cfg, Run(cfg, h, ops))
    decreases |ops|
  {
    if ops != [] {
      assert OpNamed(ops[0]);
      ApplyKeepsStats(cfg, h, ops[0]);
      StatsAgreeOverRuns(cfg, Apply(cfg, h, ops[0]), ops[1..]);
    }
  }
}
