/**
  The books a program's allocations would be kept in by hand: what is held, and
  everything that was ever taken and returned. The headers, counters and statistics
  of memwatch say the same after every run.
*/
module MemWatchBooks {
  import opened Common
  import opened HeapRepair
  import opened MemWatchSpec

  /** One request that was granted, and whether its memory was given back but is kept. */
  datatype Held = Held(file: FileName, line: int, size: nat, freed: bool)

  datatype Event = Taken(file: FileName, line: int, size: nat) | Returned(file: FileName, line: int, size: nat)

  datatype Books = Books(held: seq<Held>, log: seq<Event>)

  const BLANK := Books([], [])

  /** What an account is kept for. */
  datatype Place = Everything | Module(file: FileName) | Line(file: FileName, line: int)

  predicate At(place: Place, file: FileName, line: int) {
    match place
    case Everything => true
    case Module(f) => f == file
    case Line(f, l) => f == file && l == line
  }

  /** The bytes held at a place. */
  function HeldAt(held: seq<Held>, place: Place): nat {
    if held == [] then 0 else
    (if At(place, held[0].file, held[0].line) && !held[0].freed then held[0].size else 0) + HeldAt(held[1..], place)
  }

  // Keeping the books.

  function Take(b: Books, size: nat, file: FileName, line: int): Books {
    Books([Held(file, line, size, false)] + b.held, b.log + [Taken(file, line, size)])
  }

  /** Giving back what is held at position k; a second time changes nothing. */
  function Return(keep: bool, b: Books, k: nat): Books {
    if k >= |b.held| || b.held[k].freed then b else
    var x := b.held[k];
    Books(if keep then b.held[k := x.(freed := true)] else b.held[..k] + b.held[k + 1..],
          b.log + [Returned(x.file, x.line, x.size)])
  }

  /** An operation as the caller asked for it. */
  function Book(cfg: Config, b: Books, op: Op): Books {
    match op
    case DoMalloc(size, file, line) =>
      if cfg.useLimit && size + HeldAt(b.held, Everything) > cfg.allocLimit then b else Take(b, size, file, line)
    case DoFree(k) => Return(cfg.keepNml, b, k)
    case DoFreeForeign => b
    case DoRealloc(k, size, file, line) =>
      if k >= |b.held| || b.held[k].freed then b
      else if cfg.useLimit && size + HeldAt(b.held, Everything) - b.held[k].size > cfg.allocLimit then b
      else Return(cfg.keepNml, Take(b, size, file, line), k + 1)
  }

  function BookAll(cfg: Config, b: Books, ops: seq<Op>): Books
    decreases |ops|
  {
    if ops == [] then b else BookAll(cfg, Book(cfg, b, ops[0]), ops[1..])
  }

  // Reading the log.

  function TakenBytes(log: seq<Event>, place: Place): nat {
    if log == [] then 0 else
    var e := log[|log| - 1];
    TakenBytes(log[..|log| - 1], place) + if e.Taken? && At(place, e.file, e.line) then e.size else 0
  }

  function TakenTimes(log: seq<Event>, place: Place): nat {
    if log == [] then 0 else
    var e := log[|log| - 1];
    TakenTimes(log[..|log| - 1], place) + if e.Taken? && At(place, e.file, e.line) then 1 else 0
  }

  function ReturnedBytes(log: seq<Event>, place: Place): nat {
    if log == [] then 0 else
    var e := log[|log| - 1];
    ReturnedBytes(log[..|log| - 1], place) + if e.Returned? && At(place, e.file, e.line) then e.size else 0
  }

  function Outstanding(log: seq<Event>, place: Place): int {
    TakenBytes(log, place) - ReturnedBytes(log, place)
  }

  /** The most that was ever outstanding. */
  function Most(log: seq<Event>, place: Place): int {
    if log == [] then 0 else Larger(Most(log[..|log| - 1], place), Outstanding(log, place))
  }

  /** The four figures memwatch keeps for a place. */
  datatype Figures = Figures(total: int, num: int, max: int, curr: int)

  function Account(log: seq<Event>, place: Place): Figures {
    Figures(TakenBytes(log, place), TakenTimes(log, place), Most(log, place), Outstanding(log, place))
  }

  function AfterEvent(f: Figures, e: Event): Figures {
    match e
    case Taken(_, _, size) => Figures(f.total + size, f.num + 1, Larger(f.max, f.curr + size), f.curr + size)
    case Returned(_, _, size) => f.(curr := f.curr - size)
  }

  lemma {:induction false} NeverBelowNow(log: seq<Event>, place: Place)
    ensures Outstanding(log, place) <= Most(log, place)
  {
  }

  lemma OneMoreEvent(log: seq<Event>, e: Event, place: Place)
    ensures Account(log + [e], place)
            == if At(place, e.file, e.line) then AfterEvent(Account(log, place), e) else Account(log, place)
  {
    assert (log + [e])[..|log|] == log;
    NeverBelowNow(log, place);
  }

  // What is held is what is outstanding.

  predicate Balanced(b: Books, place: Place) {
    HeldAt(b.held, place) == Outstanding(b.log, place)
  }

  lemma {:induction false} HeldAfterChange(held: seq<Held>, k: nat, place: Place)
    requires k < |held| && !held[k].freed
    ensures var x := held[k];
            var gone := if At(place, x.file, x.line) then x.size else 0;
            && HeldAt(held[k := x.(freed := true)], place) == HeldAt(held, place) - gone
            && HeldAt(held[..k] + held[k + 1..], place) == HeldAt(held, place) - gone
  {
    var x := held[k];
    var kept, less := held[k := x.(freed := true)], held[..k] + held[k + 1..];
    if k == 0 {
      assert kept[1..] == held[1..] && less == held[1..];
    } else {
      HeldAfterChange(held[1..], k - 1, place);
      assert kept[1..] == held[1..][k - 1 := x.(freed := true)];
      assert less[1..] == held[1..][..k - 1] + held[1..][k..] && less[0] == held[0];
    }
  }

  /** What an event moves at a place. */
  function Moves(e: Event, place: Place): int {
    if !At(place, e.file, e.line) then 0 else if e.Taken? then e.size else 0 - e.size
  }

  lemma OutstandingAfter(log: seq<Event>, e: Event, place: Place)
    ensures Outstanding(log + [e], place) == Outstanding(log, place) + Moves(e, place)
  {
    assert (log + [e])[..|log|] == log;
  }

  lemma TakeBalances(b: Books, size: nat, file: FileName, line: int, place: Place)
    requires Balanced(b, place)
    ensures Balanced(Take(b, size, file, line), place)
  {
    OutstandingAfter(b.log, Taken(file, line, size), place);
    assert Take(b, size, file, line).held[1..] == b.held;
  }

  lemma ReturnBalances(keep: bool, b: Books, k: nat, place: Place)
    requires Balanced(b, place)
    ensures Balanced(Return(keep, b, k), place)
  {
    if k < |b.held| && !b.held[k].freed {
      var x := b.held[k];
      var e := Returned(x.file, x.line, x.size);
      OutstandingAfter(b.log, e, place);
      HeldAfterChange(b.held, k, place);
      assert Return(keep, b, k).log == b.log + [e];
      assert HeldAt(Return(keep, b, k).held, place) == HeldAt(b.held, place) + Moves(e, place);
    }
  }

  lemma BookBalances(cfg: Config, b: Books, op: Op, place: Place)
    requires Balanced(b, place)
    ensures Balanced(Book(cfg, b, op), place)
  {
    match op {
      case DoMalloc(size, file, line) => TakeBalances(b, size, file, line, place);
      case DoFree(k) => ReturnBalances(cfg.keepNml, b, k, place);
      case DoFreeForeign =>
      case DoRealloc(k, size, file, line) =>
        var taken := Take(b, size, file, line);
        TakeBalances(b, size, file, line, place);
        ReturnBalances(cfg.keepNml, taken, k + 1, place);
        assert Book(cfg, b, op) == b || Book(cfg, b, op) == Return(cfg.keepNml, taken, k + 1);
    }
  }

  lemma {:induction false} BooksBalance(cfg: Config, b: Books, ops: seq<Op>, place: Place)
    requires Balanced(b, place)
    ensures Balanced(BookAll(cfg, b, ops), place)
    decreases |ops|
  {
    if ops != [] {
      BookBalances(cfg, b, ops[0], place);
      BooksBalance(cfg, Book(cfg, b, ops[0]), ops[1..], place);
    }
  }

  // Statistics entries.

  /** The figures of the entry for file and line; all zero when there is none. */
  function FiguresAt(stats: seq<Stat>, file: FileName, line: int): Figures {
    var i := Find(stats, file, line);
    if i < |stats| then Figures(stats[i].total, stats[i].num, stats[i].max, stats[i].curr) else Figures(0, 0, 0, 0)
  }

  lemma {:induction false} FindAfterChange(stats: seq<Stat>, i: nat, s: Stat, file: FileName, line: int)
    requires i < |stats| && s.file == stats[i].file && s.line == stats[i].line
    ensures Find(stats[i := s], file, line) == Find(stats, file, line)
  {
    if i == 0 {
      assert stats[i := s][1..] == stats[1..];
    } else {
      assert stats[i := s][1..] == stats[1..][i - 1 := s];
      FindAfterChange(stats[1..], i - 1, s, file, line);
    }
  }

  /** Looking up or making one entry changes no figures. */
  lemma GetKeepsFigures(stats: seq<Stat>, statLevel: nat, file: FileName, line: int, f: FileName, l: int)
    ensures var (list, i) := StatGet(stats, statLevel, file, line);
            var e := EffectiveLine(statLevel, line);
            && i < |list| && i == Find(list, file, e) && list[i].file == file && list[i].line == e
            && FiguresAt(list, f, l) == FiguresAt(stats, f, l)
  {
    var e := EffectiveLine(statLevel, line);
    FindIsFirst(stats, file, e);
    if Find(stats, file, e) == |stats| {
      var list := [Stat(file, e, 0, 0, 0, 0)] + stats;
      assert list[1..] == stats;
      FindIsFirst(stats, f, l);
    }
  }

  /** An entry that grows or shrinks, and every other one that does not. */
  lemma EntryFigures(stats: seq<Stat>, statLevel: nat, size: Size, file: FileName, line: int, f: FileName, l: int)
    ensures var here := f == file && l == EffectiveLine(statLevel, line);
            var before := FiguresAt(stats, f, l);
            && FiguresAt(GrowEntry(stats, statLevel, size, file, line), f, l)
               == (if here then AfterEvent(before, Taken(file, line, size)) else before)
            && FiguresAt(ShrinkEntry(stats, statLevel, size, file, line), f, l)
               == (if here then AfterEvent(before, Returned(file, line, size)) else before)
  {
    GetKeepsFigures(stats, statLevel, file, line, f, l);
    var (list, i) := StatGet(stats, statLevel, file, line);
    FindIsFirst(list, f, l);
    FindAfterChange(list, i, Grown(list[i], size), f, l);
    FindAfterChange(list, i, list[i].(curr := list[i].curr - size), f, l);
  }

  /** The entry a place has: modules always, lines at level 2. */
  predicate HasEntry(statLevel: nat, place: Place) {
    match place
    case Everything => false
    case Module(_) => statLevel > 0
    case Line(file, line) => statLevel > 1 && file.Some? && line != -1
  }

  function EntryLine(place: Place): int {
    if place.Line? then place.line else -1
  }

  lemma StatFigures(stats: seq<Stat>, statLevel: nat, size: Size, file: FileName, line: int, place: Place)
    requires HasEntry(statLevel, place)
    ensures var f, l := place.file, EntryLine(place);
            var before := FiguresAt(stats, f, l);
            && FiguresAt(StatAlloc(stats, statLevel, size, file, line), f, l)
               == (if At(place, file, line) then AfterEvent(before, Taken(file, line, size)) else before)
            && FiguresAt(StatFree(stats, statLevel, size, file, line), f, l)
               == (if At(place, file, line) then AfterEvent(before, Returned(file, line, size)) else before)
  {
    var f, l := place.file, EntryLine(place);
    EntryFigures(stats, statLevel, size, file, -1, f, l);
    EntryFigures(GrowEntry(stats, statLevel, size, file, -1), statLevel, size, file, line, f, l);
    EntryFigures(ShrinkEntry(stats, statLevel, size, file, -1), statLevel, size, file, line, f, l);
  }

  // The heap against the books.

  predicate SameBlock(block: Info, held: Held) {
    block.file == held.file && block.line == held.line && block.size == held.size && block.nml == held.freed
  }

  predicate SameBlocks(blocks: seq<Info>, held: seq<Held>) {
    |blocks| == |held| && forall i | 0 <= i < |blocks| :: SameBlock(blocks[i], held[i])
  }

  predicate TotalsAgree(h: Heap, log: seq<Event>) {
    Figures(h.statTot, h.statNum, h.statMax, h.statCur) == Account(log, Everything)
  }

  ghost predicate EntriesAgree(statLevel: nat, stats: seq<Stat>, log: seq<Event>) {
    forall place | HasEntry(statLevel, place) :: FiguresAt(stats, place.file, EntryLine(place)) == Account(log, place)
  }

  /** Every header, counter and statistics entry says what the books say. */
  ghost predicate KeepsBooks(cfg: Config, h: Heap, b: Books) {
    && SameBlocks(h.blocks, b.held) && TotalsAgree(h, b.log) && EntriesAgree(cfg.statLevel, h.stats, b.log)
    && Balanced(b, Everything)
  }

  lemma TakeKeepsEntries(statLevel: nat, stats: seq<Stat>, log: seq<Event>, size: Size, file: FileName, line: int)
    requires EntriesAgree(statLevel, stats, log)
    ensures EntriesAgree(statLevel, if statLevel > 0 then StatAlloc(stats, statLevel, size, file, line) else stats,
                         log + [Taken(file, line, size)])
  {
    forall place | HasEntry(statLevel, place)
      ensures FiguresAt(StatAlloc(stats, statLevel, size, file, line), place.file, EntryLine(place))
              == Account(log + [Taken(file, line, size)], place)
    {
      StatFigures(stats, statLevel, size, file, line, place);
      OneMoreEvent(log, Taken(file, line, size), place);
    }
  }

  lemma ReturnKeepsEntries(statLevel: nat, stats: seq<Stat>, log: seq<Event>, size: Size, file: FileName, line: int)
    requires EntriesAgree(statLevel, stats, log)
    ensures EntriesAgree(statLevel, if statLevel > 0 then StatFree(stats, statLevel, size, file, line) else stats,
                         log + [Returned(file, line, size)])
  {
    forall place | HasEntry(statLevel, place)
      ensures FiguresAt(StatFree(stats, statLevel, size, file, line), place.file, EntryLine(place))
              == Account(log + [Returned(file, line, size)], place)
    {
      StatFigures(stats, statLevel, size, file, line, place);
      OneMoreEvent(log, Returned(file, line, size), place);
    }
  }

  lemma GrantKeepsBooks(cfg: Config, h: Heap, b: Books, size: Size, file: FileName, line: int)
    requires KeepsBooks(cfg, h, b)
    ensures KeepsBooks(cfg, Granted(cfg, h, size, file, line), Take(b, size, file, line))
  {
    TakeKeepsEntries(cfg.statLevel, h.stats, b.log, size, file, line);
    OneMoreEvent(b.log, Taken(file, line, size), Everything);
    TakeBalances(b, size, file, line, Everything);
  }

  lemma FreeKeepsBooks(cfg: Config, h: Heap, b: Books, k: nat)
    requires KeepsBooks(cfg, h, b) && k < |h.blocks|
    ensures KeepsBooks(cfg, Free(cfg, h, k), Return(cfg.keepNml, b, k))
  {
    var x := h.blocks[k];
    assert SameBlock(x, b.held[k]);
    if !x.nml {
      ReturnKeepsEntries(cfg.statLevel, h.stats, b.log, x.size, x.file, x.line);
      OneMoreEvent(b.log, Returned(x.file, x.line, x.size), Everything);
      ReturnBalances(cfg.keepNml, b, k, Everything);
    }
  }

  /** The two halves of a reallocation, with the limit off. */
  lemma MoveKeepsBooks(cfg: Config, h: Heap, b: Books, k: nat, size: Size, file: FileName, line: int)
    requires KeepsBooks(cfg, h, b) && k < |h.blocks| && !cfg.useLimit
    ensures KeepsBooks(cfg, Free(cfg, Granted(cfg, h, size, file, line), k + 1),
                       Return(cfg.keepNml, Take(b, size, file, line), k + 1))
  {
    GrantKeepsBooks(cfg, h, b, size, file, line);
    FreeKeepsBooks(cfg, Granted(cfg, h, size, file, line), Take(b, size, file, line), k + 1);
  }

  /** A reallocation is refused in the books exactly when memwatch refuses it. */
  lemma ReallocIsBooked(cfg: Config, h: Heap, b: Books, k: nat, size: Size, file: FileName, line: int)
    requires k < |h.blocks| == |b.held| && SameBlock(h.blocks[k], b.held[k])
    requires h.statCur == HeldAt(b.held, Everything)
    ensures var (g, given) := Realloc(cfg, h, k, size, file, line);
            var booked := Book(cfg, b, DoRealloc(k, size, file, line));
            if given then
              && g == Free(cfg.(useLimit := false), Granted(cfg.(useLimit := false), h, size, file, line), k + 1)
              && booked == Return(cfg.keepNml, Take(b, size, file, line), k + 1)
            else booked == b && (g == h || g == Ticked(h))
  {
  }

  lemma ReallocKeepsBooks(cfg: Config, h: Heap, b: Books, k: nat, size: Size, file: FileName, line: int)
    requires KeepsBooks(cfg, h, b) && k < |h.blocks|
    ensures KeepsBooks(cfg, Realloc(cfg, h, k, size, file, line).0, Book(cfg, b, DoRealloc(k, size, file, line)))
  {
    ReallocIsBooked(cfg, h, b, k, size, file, line);
    if Realloc(cfg, h, k, size, file, line).1 {
      MoveKeepsBooks(cfg.(useLimit := false), h, b, k, size, file, line);
    }
  }

  lemma OpKeepsBooks(cfg: Config, h: Heap, b: Books, op: Op)
    requires KeepsBooks(cfg, h, b) && Possible(h, op)
    ensures KeepsBooks(cfg, Apply(cfg, h, op), Book(cfg, b, op))
  {
    match op {
      case DoMalloc(size, file, line) => GrantKeepsBooks(cfg, h, b, size, file, line);
      case DoFree(k) => FreeKeepsBooks(cfg, h, b, k);
      case DoFreeForeign =>
      case DoRealloc(k, size, file, line) => ReallocKeepsBooks(cfg, h, b, k, size, file, line);
    }
  }

  lemma {:induction false} RunKeepsBooks(cfg: Config, h: Heap, b: Books, ops: seq<Op>)
    requires KeepsBooks(cfg, h, b) && AllPossible(cfg, h, ops)
    ensures KeepsBooks(cfg, Run(cfg, h, ops), BookAll(cfg, b, ops))
    decreases |ops|
  {
    if ops != [] {
      OpKeepsBooks(cfg, h, b, ops[0]);
      RunKeepsBooks(cfg, Apply(cfg, h, ops[0]), Book(cfg, b, ops[0]), ops[1..]);
    }
  }

  /** The bytes of the blocks allocated at a place and not given back. */
  function BytesAt(blocks: seq<Info>, place: Place): nat {
    if blocks == [] then 0 else
    var b := blocks[0];
    (if At(place, b.file, b.line) && !b.nml then b.size else 0) + BytesAt(blocks[1..], place)
  }

  lemma {:induction false} BytesAreHeld(blocks: seq<Info>, held: seq<Held>, place: Place)
    requires SameBlocks(blocks, held)
    ensures BytesAt(blocks, place) == HeldAt(held, place)
  {
    if blocks != [] {
      assert SameBlock(blocks[0], held[0]);
      BytesAreHeld(blocks[1..], held[1..], place);
    }
  }

  /**
    After any run from the empty heap: the headers carry the files, lines and sizes
    the callers gave, in order; the totals and the entry of every module, and at level
    2 of every line, are what the callers' requests add up to; and an entry's curr is
    the bytes of the blocks allocated there and not given back.
  */
  lemma EveryRequestIsAccountedFor(cfg: Config, ops: seq<Op>)
    requires AllPossible(cfg, EMPTY, ops)
    ensures var h, b := Run(cfg, EMPTY, ops), BookAll(cfg, BLANK, ops);
            && SameBlocks(h.blocks, b.held) && TotalsAgree(h, b.log)
            && forall place | HasEntry(cfg.statLevel, place) ::
                 && FiguresAt(h.stats, place.file, EntryLine(place)) == Account(b.log, place)
                 && FiguresAt(h.stats, place.file, EntryLine(place)).curr == BytesAt(h.blocks, place)
  {
    var h, b := Run(cfg, EMPTY, ops), BookAll(cfg, BLANK, ops);
    RunKeepsBooks(cfg, EMPTY, BLANK, ops);
    forall place | HasEntry(cfg.statLevel, place)
      ensures FiguresAt(h.stats, place.file, EntryLine(place)).curr == BytesAt(h.blocks, place)
    {
      BooksBalance(cfg, BLANK, ops, place);
      BytesAreHeld(h.blocks, b.held, place);
    }
  }
}
