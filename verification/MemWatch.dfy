/** The tracked heap of memwatch.cpp: the block chain, its counters and its statistics, changed in place. */
module MemWatch {
  import opened Common
  import opened HeapChain
  import opened HeapHeaders
  import opened HeapRepair
  import opened MemWatchSpec

  const MW_VAL_NEW: Byte := 0xFE
  const MW_VAL_NML: Byte := 0xFC

  const MW_VAL_DEL: Byte := 0xFD

  /** The bytes after a reallocation to n of them: as many of the old ones as fit, then new memory. */
  predicate Moved(before: seq<Byte>, after: seq<Byte>, n: nat) {
    && |after| == n
    && (forall i | 0 <= i < n && i < |before| :: after[i] == before[i])
    && (forall i | |before| <= i < n :: after[i] == 0xFE)
  }

  predicate Filled(bytes: seq<Byte>, n: nat, b: Byte) {
    |bytes| == n && forall i | 0 <= i < n :: bytes[i] == b
  }

  /** The header of a block just allocated: what the caller gave, and the number of the allocation. */
  predicate Fresh(p: Block, size: nat, file: FileName, line: int, count: nat)
    reads p`size, p`file, p`line, p`count, p`nml
  {
    p.file == file && p.line == line && p.size == size && p.count == count && !p.nml
  }

  class MemWatch {
    var mwHead: Block?
    var mwTail: Block?
    var mwCounter: nat
    var mwNumCurAlloc: int
    var mwStatCurAlloc: int
    var mwStatTotAlloc: int
    var mwStatMaxAlloc: int
    var mwStatNumAlloc: int
    var mwNmlNumAlloc: int
    var mwNmlCurAlloc: int
    var mwStatList: seq<Stat>
    var mwUseLimit: bool
    const mwNML: bool
    const mwStatLevel: nat
    const mwAllocLimit: int

    // What mwIsSafeAddr accepts, and the blocks of the chain, newest first.
    var safe: set<Block>
    ghost var chain: seq<Block>
    ghost var infos: seq<Info>

    ghost predicate Valid()
      reads `mwHead, `mwTail, `safe, `chain, `infos, chain
    {
      Undamaged(chain, infos, mwHead, mwTail, safe)
    }

    ghost function Cfg(): Config
      reads this
    {
      Config(mwNML, mwStatLevel, mwUseLimit, mwAllocLimit)
    }

    ghost function View(): Heap
      reads this
    {
      Heap(infos, mwCounter, mwNumCurAlloc, mwStatCurAlloc, mwStatTotAlloc, mwStatMaxAlloc, mwStatNumAlloc,
           mwNmlNumAlloc, mwNmlCurAlloc, mwStatList)
    }

    constructor (nml: bool, statLevel: nat, useLimit: bool, allocLimit: int)
      ensures Valid() && chain == [] && View() == EMPTY && Cfg() == Config(nml, statLevel, useLimit, allocLimit)
    {
      mwHead, mwTail, mwCounter := null, null, 0;
      mwNumCurAlloc, mwStatCurAlloc, mwStatTotAlloc, mwStatMaxAlloc, mwStatNumAlloc := 0, 0, 0, 0, 0;
      mwNmlNumAlloc, mwNmlCurAlloc, mwStatList := 0, 0, [];
      mwNML, mwStatLevel, mwUseLimit, mwAllocLimit := nml, statLevel, useLimit, allocLimit;
      safe, chain, infos := {}, [], [];
    }

    /** mwStatGet: the place of the entry, or -1 when there is none and none is made. */
    method MwStatGet(file: FileName, line: int, makenew: bool) returns (ms: int)
      modifies this`mwStatList
      ensures var l := EffectiveLine(mwStatLevel, line);
              if makenew || Find(old(mwStatList), file, l) < |old(mwStatList)|
              then (mwStatList, ms) == StatGet(old(mwStatList), mwStatLevel, file, line)
              else ms == -1 && mwStatList == old(mwStatList)
    {
      var l := line;
      if mwStatLevel < 2 {
        l := -1;
      }
      var i := 0;
      while i < |mwStatList|
        invariant i <= |mwStatList| && Find(mwStatList, file, l) == i + Find(mwStatList[i..], file, l)
      {
        if l == mwStatList[i].line && mwStatList[i].file == file {
          return i;
        }
        i := i + 1;
      }
      if !makenew {
        return -1;
      }
      mwStatList := [Stat(file, l, 0, 0, 0, 0)] + mwStatList;
      return 0;
    }

    method MwStatAlloc(size: Size, file: FileName, line: int)
      modifies this`mwStatList
      ensures mwStatList == StatAlloc(old(mwStatList), mwStatLevel, size, file, line)
    {
      FindInBounds(mwStatList, file, EffectiveLine(mwStatLevel, -1));
      var ms := MwStatGet(file, -1, true);
      mwStatList := mwStatList[ms := Grown(mwStatList[ms], size)];
      if mwStatLevel > 1 && line != -1 && file.Some? {
        FindInBounds(mwStatList, file, EffectiveLine(mwStatLevel, line));
        ms := MwStatGet(file, line, true);
        mwStatList := mwStatList[ms := Grown(mwStatList[ms], size)];
      }
    }

    method MwStatFree(size: Size, file: FileName, line: int)
      modifies this`mwStatList
      ensures mwStatList == StatFree(old(mwStatList), mwStatLevel, size, file, line)
    {
      FindInBounds(mwStatList, file, EffectiveLine(mwStatLevel, -1));
      var ms := MwStatGet(file, -1, true);
      mwStatList := mwStatList[ms := mwStatList[ms].(curr := mwStatList[ms].curr - size)];
      if mwStatLevel > 1 && line != -1 && file.Some? {
        FindInBounds(mwStatList, file, EffectiveLine(mwStatLevel, line));
        ms := MwStatGet(file, line, true);
        mwStatList := mwStatList[ms := mwStatList[ms].(curr := mwStatList[ms].curr - size)];
      }
    }

    static lemma FindInBounds(stats: seq<Stat>, file: FileName, line: int)
      ensures Find(stats, file, line) <= |stats|
    {
      FindIsFirst(stats, file, line);
    }

    /** The counters of mwMalloc. */
    method CountNew(size: Size, file: FileName, line: int, ghost h: Heap)
      requires View() == h
      modifies this`mwNumCurAlloc, this`mwStatCurAlloc, this`mwStatTotAlloc, this`mwStatMaxAlloc, this`mwStatNumAlloc,
               this`mwStatList
      ensures View() == Counted(Cfg(), h, size, file, line)
    {
      mwNumCurAlloc := mwNumCurAlloc + 1;
      mwStatCurAlloc := mwStatCurAlloc + size;
      mwStatTotAlloc := mwStatTotAlloc + size;
      if mwStatCurAlloc > mwStatMaxAlloc {
        mwStatMaxAlloc := mwStatCurAlloc;
      }
      mwStatNumAlloc := mwStatNumAlloc + 1;
      if mwStatLevel > 0 {
        MwStatAlloc(size, file, line);
      }
    }

    /** A header for a new block that will come before mwHead. */
    method NewHeader(size: Size, file: FileName, line: int) returns (mw: Block)
      ensures fresh(mw) && Sound(mw) && Checked(mw) && InfoOf(mw) == Info(file, line, size, mwCounter, false)
      ensures mw.prev == null && mw.next == mwHead && Filled(mw.bytes, size, 0xFE)
    {
      mw := new Block(mwCounter, null, mwHead, file, size, line, seq(size, _ => MW_VAL_NEW));
    }

    /** A new header becomes the head of the chain. */
    method LinkNew(mw: Block)
      requires Valid() && mw !in chain && Sound(mw) && Checked(mw) && mw.prev == null && mw.next == mwHead
      modifies `mwHead, `mwTail, `safe, `chain, `infos, (if mwHead == null then {} else {mwHead})`prev
      ensures Valid() && chain == [mw] + old(chain) && safe == old(safe) + {mw} && infos == [InfoOf(mw)] + old(infos)
    {
      mwHead, mwTail := AddFront(mwHead, mwTail, mw, chain, infos, safe);
      safe, chain, infos := safe + {mw}, [mw] + chain, [InfoOf(mw)] + infos;
    }

    /** The new block and its place in the chain. */
    method NewBlock(size: Size, file: FileName, line: int, ghost h: Heap) returns (mw: Block)
      requires Valid() && View() == h
      modifies `mwHead, `mwTail, `safe, `chain, `infos, (if mwHead == null then {} else {mwHead})`prev
      ensures Valid() && View() == Placed(h, Info(file, line, size, h.counter, false))
      ensures fresh(mw) && chain == [mw] + old(chain) && safe == old(safe) + {mw}
      ensures Fresh(mw, size, file, line, h.counter) && Filled(mw.bytes, size, 0xFE)
    {
      mw := NewHeader(size, file, line);
      LinkNew(mw);
    }

    /** mwMalloc past its limit test, counted already in the heap h. */
    method Allocate(size: Size, file: FileName, line: int, ghost h: Heap) returns (p: Block)
      requires Valid() && View() == Ticked(h)
      modifies `mwHead, `mwTail, `safe, `chain, `infos, (if mwHead == null then {} else {mwHead})`prev
      modifies `mwNumCurAlloc, `mwStatCurAlloc, `mwStatTotAlloc, `mwStatMaxAlloc, `mwStatNumAlloc, `mwStatList
      ensures Valid() && View() == Granted(Cfg(), h, size, file, line)
      ensures fresh(p) && chain == [p] + old(chain) && safe == old(safe) + {p}
      ensures Fresh(p, size, file, line, h.counter + 1) && Filled(p.bytes, size, 0xFE)
    {
      ghost var placed := Placed(Ticked(h), Info(file, line, size, h.counter + 1, false));
      p := NewBlock(size, file, line, Ticked(h));
      CountNew(size, file, line, placed);
    }

    /** mwMalloc; the null result is the limit failure. */
    method MwMalloc(size: Size, file: FileName, line: int) returns (p: Block?)
      requires Valid()
      modifies this, (if mwHead == null then {} else {mwHead})`prev
      ensures mwUseLimit == old(mwUseLimit)
      ensures Valid()
      ensures (View(), p != null) == Malloc(Cfg(), old(View()), size, file, line)
      ensures mwCounter == old(mwCounter) + 1
      ensures p != null ==> fresh(p) && chain == [p] + old(chain) && safe == old(safe) + {p}
      ensures p != null ==> Fresh(p, size, file, line, mwCounter) && Filled(p.bytes, size, 0xFE)
      ensures p == null ==> chain == old(chain) && safe == old(safe)
    {
      ghost var h := View();
      mwCounter := mwCounter + 1;
      if mwUseLimit && size + mwStatCurAlloc > mwAllocLimit {
        return null;
      }
      p := Allocate(size, file, line, h);
    }

    /** Neighbours that a block names also name it. */
    ghost predicate LinksAgree(mw: Block)
      reads this, mw, mw.prev, mw.next
    {
      && (if mw.prev != null then mw.prev.next == mw else mwHead == mw)
      && (if mw.next != null then mw.next.prev == mw else mwTail == mw)
    }

    /** The file name that mwRelink leaves in a header: it must have a module entry in the statistics. */
    function NameAfterRelink(file: FileName): FileName
      reads `mwStatList
    {
      if file.Some? && Find(mwStatList, file, -1) == |mwStatList| then Some("<relinked>") else file
    }

    /** A file keeps its name exactly when it has a module entry. */
    lemma RelinkedName(file: FileName)
      ensures NameAfterRelink(file)
              == if file.None? || (exists s | s in mwStatList :: s.file == file && s.line == -1) then file
                 else Some("<relinked>")
    {
      FindIsFirst(mwStatList, file, -1);
      var i := Find(mwStatList, file, -1);
      assert i < |mwStatList| ==> mwStatList[i] in mwStatList;
    }

    /** mwRelink's repair of a header whose links are good again. */
    method RestoreInfo(mw: Block, ghost k: nat)
      requires k < |chain| && chain[k] == mw && Chain(chain, mwHead, mwTail) && mw in safe && Sound(mw)
      requires HealthyExcept(chain, infos, safe, mw)
      modifies mw`file, mw`check, `infos, `mwStatList
      ensures Valid() && mwStatList == old(mwStatList)
      ensures infos == old(infos)[k := InfoOf(mw)] && mw.file == old(NameAfterRelink(mw.file))
    {
      Reset(mw);
      OneRestored(chain, infos, mwHead, mwTail, safe, k);
      infos := infos[k := InfoOf(mw)];
    }

    method Reset(mw: Block)
      modifies mw`file, mw`check, `mwStatList
      ensures Checked(mw) && mw.file == old(NameAfterRelink(mw.file)) && mwStatList == old(mwStatList)
    {
      if mw.file.Some? {
        FindInBounds(mwStatList, mw.file, -1);
        var ms := MwStatGet(mw.file, -1, false);
        if ms == -1 {
          mw.file := Some("<relinked>");
        }
      }
      mw.check := ChkVal(mw.count, mw.size, mw.line);
    }

    /** The end of mwRelink: does the chain hold as many blocks as are counted, and if so as many bytes? */
    method VerifyCounts(mw: Block) returns (ok: bool)
      requires Valid() && mwHead != null
      modifies mw`size
      ensures ok <==> |chain| == mwNumCurAlloc
      ensures mw.size == if ok && Total(infos) != mwStatCurAlloc then 0 else old(mw.size)
    {
      var intact := IsHeapOk(mwHead, mwTail, null, safe);
      assert intact by {
        assert ProperHeap(chain, mwHead, mwTail, null, safe);
      }
      var count, size := CountChain(mwHead, mwTail, chain, infos);
      if count == mwNumCurAlloc {
        if size != mwStatCurAlloc {
          mw.size := 0;
        }
        return true;
      }
      return false;
    }

    /** The repair in mwRelink: the links, then what can be restored of the header. */
    method RepairBlock(mw: Block, ghost k: nat)
      requires mwHead != null && mwTail != null && IntactExcept(chain, mw, mwHead, mwTail)
      requires mw in safe && HealthyExcept(chain, infos, safe, mw)
      requires mw in chain ==> k < |chain| && chain[k] == mw && Sound(mw) && infos[k] == InfoOf(mw)
      modifies mw`prev, mw`next, mw`file, mw`check, `infos, `mwStatList
      ensures Valid() && mwStatList == old(mwStatList)
      ensures infos == if mw in chain then old(infos)[k := old(infos)[k].(file := NameAfterRelink(old(infos)[k].file))]
              else old(infos)
      ensures mw !in chain ==> mw.prev == old(mw.prev) && mw.next == old(mw.next)
      ensures mw !in chain ==> mw.file == old(mw.file) && mw.check == old(mw.check)
    {
      InSafe(mw);
      if mw !in chain {
        AllIfForeign(chain, infos, safe, mw);
      }
      var fails := RepairLinks(mwHead, mwTail, mw, safe, chain);
      if fails <= 1 {
        RestoreInfo(mw, k);
      }
    }

    /**
      mwRelink of a block whose prev, next and check hold anything, all else being
      intact: none of its emergency exits is taken. The chain is restored exactly.
    */
    method MwRelink(mw: Block, ghost k: nat) returns (ok: bool)
      requires mwHead != null && mwTail != null && IntactExcept(chain, mw, mwHead, mwTail)
      requires mw in safe && HealthyExcept(chain, infos, safe, mw)
      requires mw in chain ==> k < |chain| && chain[k] == mw && Sound(mw) && infos[k] == InfoOf(mw)
      modifies mw`prev, mw`next, mw`file, mw`check, mw`size, `infos, `mwStatList
      ensures Chain(chain, mwHead, mwTail)
      ensures mwStatList == old(mwStatList)
      ensures ok <==> |chain| == mwNumCurAlloc
      ensures infos == if mw in chain then old(infos)[k := old(infos)[k].(file := NameAfterRelink(old(infos)[k].file))]
              else old(infos)
      ensures ok && Total(infos) != mwStatCurAlloc ==> mw.size == 0
      ensures !ok || Total(infos) == mwStatCurAlloc ==> Valid() && mw.size == old(mw.size)
      ensures mw !in chain ==> mw.prev == old(mw.prev) && mw.next == old(mw.next)
      ensures mw !in chain ==> mw.file == old(mw.file) && mw.check == old(mw.check)
    {
      RepairBlock(mw, k);
      ok := VerifyCounts(mw);
    }

    /**
      mwRelink when the counters agree with the blocks: the heap is undamaged again,
      the sizes are kept, and success is reported exactly when no block is no-man's-land.
    */
    method RelinkCounted(mw: Block, ghost k: nat) returns (ok: bool)
      requires mwHead != null && mwTail != null && IntactExcept(chain, mw, mwHead, mwTail)
      requires mw in safe && HealthyExcept(chain, infos, safe, mw)
      requires mw in chain ==> k < |chain| && chain[k] == mw && Sound(mw) && infos[k] == InfoOf(mw)
      requires |infos| == |chain| && CountersAgree(View())
      modifies mw`prev, mw`next, mw`file, mw`check, mw`size, `infos, `mwStatList
      ensures Valid() && CountersAgree(View())
      ensures ok <==> mwNmlNumAlloc == 0
      ensures infos == if mw in chain then old(infos)[k := old(infos)[k].(file := NameAfterRelink(old(infos)[k].file))]
              else old(infos)
      ensures mw !in chain ==> mw.prev == old(mw.prev) && mw.next == old(mw.next)
      ensures mw !in chain ==> mw.file == old(mw.file) && mw.check == old(mw.check)
      ensures mw.size == old(mw.size) && mwStatList == old(mwStatList)
    {
      CountersTell(View(), mw in chain, k, NameAfterRelink(mw.file));
      ok := MwRelink(mw, k);
    }

    lemma InSafe(mw: Block)
      requires mw in safe && HealthyExcept(chain, infos, safe, mw)
      ensures forall b | b in chain :: b in safe
    {
    }

    /** mwIsHeapOK of a block finds the blocks of the chain and no others. */
    method InHeap(mw: Block) returns (found: bool)
      requires Chain(chain, mwHead, mwTail) && forall b | b in chain :: b in safe
      ensures found <==> mw in chain
    {
      found := IsHeapOk(mwHead, mwTail, mw, safe);
      if found && mwHead != null {
        ghost var c: seq<Block> :| ProperHeap(c, mwHead, mwTail, mw, safe);
        ghost var n :| 0 <= n < |c| && c[n] == mw;
        ChainIsUnique(c, chain, mwHead, mwTail, n);
      } else {
        assert mw in chain ==> ProperHeap(chain, mwHead, mwTail, mw, safe);
      }
    }

    /** mwIsOwned of a block with a bad checksum: it is repaired, and its size lost, exactly when it is in the chain. */
    method OwnedDespiteChecksum(mw: Block) returns (owned: bool)
      requires Chain(chain, mwHead, mwTail) && forall b | b in chain :: b in safe
      modifies mw`file, mw`size, mw`check, `mwStatList
      ensures owned <==> mw in chain
      ensures mwStatList == old(mwStatList)
      ensures owned ==> Checked(mw) && mw.size == 0
      ensures owned ==> mw.file == if old(mw.file.None?) then Some("<unknown>") else old(NameAfterRelink(mw.file))
      ensures !owned ==> mw.file == old(mw.file) && mw.size == old(mw.size) && mw.check == old(mw.check)
    {
      owned := InHeap(mw);
      if !owned {
        return;
      }
      if mw.file.Some? {
        FindInBounds(mwStatList, mw.file, -1);
        var ms := MwStatGet(mw.file, -1, false);
        if ms == -1 {
          mw.file := Some("<relinked>");
        }
      } else {
        mw.file := Some("<unknown>");
      }
      mw.size := 0;
      mw.check := ChkVal(mw.count, 0, mw.line);
    }

    /** The count of reasons for which mwIsOwned believes a block with a good checksum. */
    method Reasons(mw: Block) returns (retv: nat)
      requires Checked(mw)
      ensures retv > 2 <==> LinksAgree(mw)
    {
      retv := 0;
      if mw.prev != null {
        if mw.prev.next == mw {
          retv := retv + 1;
        }
      } else if mwHead == mw {
        retv := retv + 1;
      }
      if mw.next != null {
        if mw.next.prev == mw {
          retv := retv + 1;
        }
      } else if mwTail == mw {
        retv := retv + 1;
      }
      if mw.check == ChkVal(mw.count, mw.size, mw.line) {
        retv := retv + 1;
      }
    }

    lemma MemberAgrees(k: nat)
      requires Valid() && k < |chain|
      ensures var mw := chain[k]; (mw.prev != null ==> mw.prev in safe) && (mw.next != null ==> mw.next in safe)
      ensures LinksAgree(chain[k]) && mwHead != null && mwTail != null
    {
      assert Linked(chain, k);
      assert k > 0 ==> Linked(chain, k - 1) && chain[k - 1] in chain;
      assert k + 1 < |chain| ==> Linked(chain, k + 1) && chain[k + 1] in chain;
    }

    /**
      mwIsOwned on an undamaged heap. It knows every block of the chain, and no block
      with a bad checksum outside it; a foreign header with a good checksum it believes
      exactly when its neighbours agree or there is no no-man's-land: mwRelink then
      reports success without having found it.
    */
    method MwIsOwned(mw: Block) returns (owned: bool)
      requires Valid()
      requires chain != [] && mw in safe && Checked(mw) ==>
                 (mw.prev != null ==> mw.prev in safe) && (mw.next != null ==> mw.next in safe)
      requires mw !in chain && mw in safe && Checked(mw) ==> CountersAgree(View())
      modifies mw`prev, mw`next, mw`file, mw`check, mw`size, `infos, `mwStatList
      ensures Valid() && infos == old(infos) && mwStatList == old(mwStatList)
      ensures mw.prev == old(mw.prev) && mw.next == old(mw.next)
      ensures mw.file == old(mw.file) && mw.check == old(mw.check) && mw.size == old(mw.size)
      ensures owned <==>
                mw in chain
                || (chain != [] && mw in safe && Checked(mw) && (LinksAgree(mw) || mwNmlNumAlloc == 0))
    {
      if mw !in safe {
        return false;
      }
      if mwHead == null && mwTail == null && mwStatCurAlloc == 0 {
        return false;
      }
      if mw.check != ChkVal(mw.count, mw.size, mw.line) {
        owned := OwnedDespiteChecksum(mw);
        return;
      }
      owned := LooksOwned(mw);
    }

    /** The end of mwIsOwned, for a block with a good checksum. */
    method LooksOwned(mw: Block) returns (owned: bool)
      requires Valid() && chain != [] && mw in safe && Checked(mw) && (mw !in chain ==> CountersAgree(View()))
      requires (mw.prev != null ==> mw.prev in safe) && (mw.next != null ==> mw.next in safe)
      modifies mw`prev, mw`next, mw`file, mw`check, mw`size, `infos, `mwStatList
      ensures Valid() && infos == old(infos) && mwStatList == old(mwStatList)
      ensures mw.prev == old(mw.prev) && mw.next == old(mw.next)
      ensures mw.file == old(mw.file) && mw.check == old(mw.check) && mw.size == old(mw.size)
      ensures owned <==> old(LinksAgree(mw)) || mwNmlNumAlloc == 0
      ensures mw in chain ==> old(LinksAgree(mw))
    {
      Outside(mw);
      var retv := Reasons(mw);
      owned := retv > 2;
      if !owned {
        var found := InHeap(mw);
        if !found {
          owned := RelinkCounted(mw, 0);
        }
      }
    }

    /** The undamaged heap as mwRelink sees it for a block that does not belong to it. */
    lemma Outside(mw: Block)
      requires Valid() && chain != []
      ensures mwHead != null && mwTail != null && IntactExcept(chain, mw, mwHead, mwTail)
      ensures HealthyExcept(chain, infos, safe, mw)
      ensures forall b | b in chain :: b in safe && LinksAgree(b)
    {
      forall i, j | 0 <= i < j < |chain| ensures chain[i] != chain[j] { ChainIsDistinct(chain, mwHead, mwTail, i, j); }
      forall b | b in chain ensures LinksAgree(b) {
        var k :| 0 <= k < |chain| && chain[k] == b;
        MemberAgrees(k);
      }
    }

    method Mark(mw: Block)
      requires Sound(mw)
      modifies mw`nml, mw`bytes
      ensures Sound(mw) && InfoOf(mw) == old(InfoOf(mw)).(nml := true) && Filled(mw.bytes, mw.size, 0xFC)
    {
      mw.nml := true;
      mw.bytes := seq(mw.size, _ => MW_VAL_NML);
    }

    /** The flag and the fill of a block that stays in the chain. */
    method MarkInChain(mw: Block, ghost k: nat)
      requires Valid() && k < |chain| && chain[k] == mw
      modifies mw`nml, mw`bytes, `infos
      ensures Valid() && infos == old(infos)[k := old(infos)[k].(nml := true)]
      ensures Filled(mw.bytes, mw.size, 0xFC)
    {
      AllBut(chain, infos, safe, k);
      Mark(mw);
      OneMarked(chain, infos, mwHead, mwTail, safe, k);
      infos := infos[k := infos[k].(nml := true)];
    }

    /** Where mwFree keeps a block as no-man's-land instead of freeing it. */
    method MarkNml(mw: Block, ghost k: nat, ghost h: Heap)
      requires Valid() && View() == h && k < |chain| && chain[k] == mw
      modifies mw`nml, mw`bytes, `mwNmlNumAlloc, `mwNmlCurAlloc, `infos
      ensures Valid() && View() == MarkedNml(h, k)
      ensures Filled(mw.bytes, mw.size, 0xFC)
    {
      AllBut(chain, infos, safe, k);
      mwNmlNumAlloc := mwNmlNumAlloc + 1;
      mwNmlCurAlloc := mwNmlCurAlloc + mw.size;
      MarkInChain(mw, k);
    }

    /** The memset over a freed header and its data. */
    method Fill(mw: Block)
      modifies mw`count, mw`size, mw`line, mw`check, mw`nml, mw`bytes
      ensures !Checked(mw) && Filled(mw.bytes, old(|mw.bytes|), 0xFD)
    {
      DeletedIsNotChecked();
      mw.bytes := seq(|mw.bytes|, _ => MW_VAL_DEL);
      mw.count, mw.size, mw.line, mw.check, mw.nml := DELETED_COUNT, DELETED, DELETED_LINE, DELETED, true;
    }

    /** The unlinking of mwFree. */
    method Detach(mw: Block, ghost k: nat)
      requires Valid() && k < |chain| && chain[k] == mw
      modifies (if mw.prev == null then {} else {mw.prev})`next, (if mw.next == null then {} else {mw.next})`prev
      modifies `mwHead, `mwTail, `chain, `infos
      ensures Valid() && mw !in chain && chain == Without(old(chain), k) && infos == Without(old(infos), k)
    {
      OneLess(chain, infos, safe, k);
      ghost var whole := chain;
      chain, infos := Without(chain, k), Without(infos, k);
      mwHead, mwTail := Unlink(mwHead, mwTail, mw, whole, k);
    }

    /** Where mwFree really frees a block. */
    method Release(mw: Block, ghost k: nat)
      requires Valid() && k < |chain| && chain[k] == mw
      modifies (if mw.prev == null then {} else {mw.prev})`next, (if mw.next == null then {} else {mw.next})`prev
      modifies mw`count, mw`size, mw`line, mw`check, mw`nml, mw`bytes, `mwHead, `mwTail, `chain, `infos
      ensures Valid() && chain == Without(old(chain), k) && infos == Without(old(infos), k)
      ensures mw !in chain && !Checked(mw) && Filled(mw.bytes, old(|mw.bytes|), 0xFD)
    {
      Detach(mw, k);
      Fill(mw);
    }

    /** The counters of mwFree. */
    method CountFreed(mw: Block, ghost h: Heap)
      requires Sound(mw) && View() == h
      modifies `mwNumCurAlloc, `mwStatCurAlloc, `mwStatList
      ensures View() == Uncounted(Cfg(), h, InfoOf(mw))
    {
      mwNumCurAlloc := mwNumCurAlloc - 1;
      mwStatCurAlloc := mwStatCurAlloc - mw.size;
      if mwStatLevel > 0 {
        MwStatFree(mw.size, mw.file, mw.line);
      }
    }

    /** What mwFree does with a block that it owns and that is not no-man's-land. */
    method FreeOwned(mw: Block, ghost k: nat, ghost h: Heap)
      requires Valid() && View() == h && k < |chain| && chain[k] == mw
      modifies (if mw.prev == null then {} else {mw.prev})`next, (if mw.next == null then {} else {mw.next})`prev
      modifies mw`count, mw`size, mw`line, mw`check, mw`nml, mw`bytes, `mwHead, `mwTail, `chain, `infos
      modifies `mwNumCurAlloc, `mwStatCurAlloc, `mwStatList, `mwNmlNumAlloc, `mwNmlCurAlloc
      ensures Valid() && View() == Drop(Cfg(), h, k)
      ensures mwNML ==> chain == old(chain) && Filled(mw.bytes, mw.size, 0xFC)
      ensures !mwNML ==> chain == Without(old(chain), k) && mw !in chain && !Checked(mw)
      ensures !mwNML ==> Filled(mw.bytes, old(mw.size), 0xFD)
    {
      AllBut(chain, infos, safe, k);
      CountFreed(mw, h);
      if mwNML {
        MarkNml(mw, k, Uncounted(Cfg(), h, infos[k]));
      } else {
        Release(mw, k);
      }
    }

    /**
      What a program may hand to mwFree and mwRealloc: block k of the chain, or any other
      address, unless it carries a foreign header with a good checksum that mwIsOwned
      believes, or whose neighbour pointers it would follow to an illegal address.
    */
    ghost predicate MayFree(p: Block, k: nat)
      reads this, p, p.prev, p.next
    {
      if p in chain then
        k < |chain| && chain[k] == p
      else
        p in safe && Checked(p) ==>
          && CountersAgree(View())
          && (chain != [] ==> mwNmlNumAlloc != 0 && !LinksAgree(p))
          && (chain != [] ==> (p.prev != null ==> p.prev in safe) && (p.next != null ==> p.next in safe))
    }

    /** The question mwFree and mwRealloc ask about an address. */
    method AskOwned(p: Block, ghost k: nat) returns (owned: bool)
      requires Valid()
      requires MayFree(p, k)
      modifies p`prev, p`next, p`file, p`check, p`size, `infos, `mwStatList
      ensures Valid() && View() == old(View()) && (owned <==> p in chain)
      ensures p.prev == old(p.prev) && p.next == old(p.next) && (owned ==> p.nml == infos[k].nml)
      ensures Checked(p) == old(Checked(p))
    {
      if p in chain {
        MemberAgrees(k);
        AllBut(chain, infos, safe, k);
      }
      owned := MwIsOwned(p);
    }

    /** mwFree past its test for a null pointer, counted already in the heap h. */
    method FreeBlock(p: Block, ghost k: nat, ghost h: Heap)
      requires Valid() && View() == FreeForeign(h)
      requires MayFree(p, k)
      modifies `mwNumCurAlloc, `mwStatCurAlloc, `mwStatList, `mwNmlNumAlloc, `mwNmlCurAlloc, `mwHead, `mwTail, `chain,
               `infos, p
      modifies (if p !in chain || p.prev == null then {} else {p.prev})`next
      modifies (if p !in chain || p.next == null then {} else {p.next})`prev
      ensures Valid() && View() == (if p in old(chain) then Free(Cfg(), h, k) else FreeForeign(h))
      ensures chain == if p !in old(chain) || mwNML || old(infos)[k].nml then old(chain) else Without(old(chain), k)
      ensures p in old(chain) && p !in chain ==> !Checked(p)
      ensures p in old(chain) && !old(infos)[k].nml ==> Filled(p.bytes, old(p.size), if mwNML then 0xFC else 0xFD)
    {
      var owned := AskOwned(p, k);
      if owned && !p.nml {
        FreeOwned(p, k, Ticked(h));
      }
    }

    /**
      mwFree of nothing, of a block of the chain, or of an address that mwIsOwned turns
      away (freed before, or never an allocation).
    */
    method MwFree(p: Block?, ghost k: nat)
      requires Valid()
      requires p != null ==> MayFree(p, k)
      modifies `mwCounter, `mwNumCurAlloc, `mwStatCurAlloc, `mwStatList, `mwNmlNumAlloc, `mwNmlCurAlloc, `mwHead,
               `mwTail
      modifies `chain, `infos, (if p == null then {} else {p})
      modifies (if p == null || p !in chain || p.prev == null then {} else {p.prev})`next
      modifies (if p == null || p !in chain || p.next == null then {} else {p.next})`prev
      ensures Valid()
      ensures View() == if p == null || p !in old(chain) then FreeForeign(old(View())) else Free(Cfg(), old(View()), k)
      ensures chain == if p == null || p !in old(chain) || mwNML || old(infos)[k].nml then old(chain)
                       else Without(old(chain), k)
      ensures mwCounter == old(mwCounter) + 1
      ensures p != null && p in old(chain) && p !in chain ==> !Checked(p)
      ensures p != null && p in old(chain) && !old(infos)[k].nml ==>
                Filled(p.bytes, old(p.size), if mwNML then 0xFC else 0xFD)
    {
      ghost var h := View();
      mwCounter := mwCounter + 1;
      if p != null {
        FreeBlock(p, k, h);
      }
    }

    /** The memcpy of mwRealloc. */
    method CopyBytes(q: Block, p: Block, ghost k: nat)
      requires Valid() && chain != [] && q == chain[0] && 0 < k < |chain| && p == chain[k]
      requires Filled(q.bytes, q.size, 0xFE)
      modifies q`bytes
      ensures Valid() && Moved(old(p.bytes), q.bytes, q.size)
    {
      AllBut(chain, infos, safe, 0);
      AllBut(chain, infos, safe, k);
      var n := if q.size < p.size then q.size else p.size;
      q.bytes := p.bytes[..n] + q.bytes[n..];
      OneRestored(chain, infos, mwHead, mwTail, safe, 0);
      assert infos[0 := InfoOf(q)] == infos;
    }

    /**
      The first half of mwRealloc's fake reallocation: a new block, allocated without the limit, with the old bytes.
    */
    method Grow(p: Block, ghost k: nat, size: Size, file: FileName, line: int, ghost cfg: Config, ghost h: Heap)
      returns (q: Block)
      requires Valid() && cfg == Cfg() && h == View() && !mwUseLimit && k < |chain| && chain[k] == p
      modifies this, (if mwHead == null then {} else {mwHead})`prev
      ensures mwUseLimit == old(mwUseLimit)
      ensures Valid() && View() == Granted(cfg, h, size, file, line)
      ensures fresh(q) && chain == [q] + old(chain) && Fresh(q, size, file, line, h.counter + 1)
      ensures Moved(old(p.bytes), q.bytes, size)
    {
      q := MwMalloc(size, file, line);
      CopyBytes(q, p, k + 1);
    }

    lemma PrevOf(k: nat)
      requires Valid() && k < |chain|
      ensures chain[k].prev == if k == 0 then null else chain[k - 1]
    {
      assert Linked(chain, k);
    }

    /** mwFree of a block of the chain. */
    method FreeMember(p: Block, ghost k: nat, ghost after: Heap)
      requires Valid() && k < |chain| && chain[k] == p && after == Free(Cfg(), View(), k)
      modifies `mwCounter, `mwNumCurAlloc, `mwStatCurAlloc, `mwStatList, `mwNmlNumAlloc, `mwNmlCurAlloc, `mwHead,
               `mwTail
      modifies `chain, `infos, p
      modifies (if p.prev == null then {} else {p.prev})`next, (if p.next == null then {} else {p.next})`prev
      ensures Valid() && View() == after
      ensures chain == old(chain) || chain == Without(old(chain), k)
    {
      assert p in chain;
      MwFree(p, k);
    }

    /** The second half: the old block goes, the new one stays in front with its bytes. */
    method FreeOld(p: Block, ghost k: nat, ghost q: Block, ghost after: Heap)
      requires Valid() && 0 < k < |chain| && chain[k] == p && chain[0] == q && q != p
      requires after == Free(Cfg(), View(), k)
      modifies this, p
      modifies (if p.prev == null then {} else {p.prev})`next, (if p.next == null then {} else {p.next})`prev
      ensures mwUseLimit == old(mwUseLimit)
      ensures Valid() && View() == after
      ensures q in chain && q.bytes == old(q.bytes) && q.size == old(q.size) && q.count == old(q.count)
      ensures q.file == old(q.file) && q.line == old(q.line) && q.nml == old(q.nml)
    {
      ghost var c := chain;
      FirstStays(c, k);
      FreeMember(p, k, after);
    }

    static lemma FirstStays(c: seq<Block>, k: nat)
      requires 0 < k < |c|
      ensures c[0] in Without(c, k)
    {
      assert Without(c, k)[0] == c[0];
    }

    /** mwRealloc's fake reallocation while the limit is off. */
    method Move(p: Block, ghost k: nat, size: Size, file: FileName, line: int, ghost cfg: Config, ghost h: Heap,
                ghost grown: Heap, ghost after: Heap) returns (q: Block)
      requires Valid() && cfg == Cfg() && h == View() && !mwUseLimit && k < |chain| && chain[k] == p
      requires grown == Granted(cfg, h, size, file, line) && after == Free(cfg, grown, k + 1)
      modifies this, p, (if mwHead == null then {} else {mwHead})`prev
      modifies (if p.prev == null then {} else {p.prev})`next, (if p.next == null then {} else {p.next})`prev
      ensures mwUseLimit == old(mwUseLimit)
      ensures Valid() && View() == after
      ensures fresh(q) && q in chain && Fresh(q, size, file, line, h.counter + 1)
      ensures Moved(old(p.bytes), q.bytes, size)
    {
      PrevOf(k);
      q := Grow(p, k, size, file, line, cfg, h);
      PrevOf(k + 1);
      FreeOld(p, k + 1, q, after);
    }

    /** mwRealloc. */
    method MwRealloc(p: Block?, ghost k: nat, size: Size, file: FileName, line: int) returns (q: Block?)
      requires Valid()
      requires p != null ==> MayFree(p, k)
      modifies this, (if p == null then {} else {p}), (if mwHead == null then {} else {mwHead})`prev
      modifies (if p == null || p !in chain || p.prev == null then {} else {p.prev})`next
      modifies (if p == null || p !in chain || p.next == null then {} else {p.next})`prev
      ensures Valid() && mwUseLimit == old(mwUseLimit)
      ensures p == null ==> (View(), q != null) == Malloc(Cfg(), old(View()), size, file, line)
      ensures p != null && size == 0 ==>
                q == null && View() == if p in old(chain) then Free(Cfg(), old(View()), k) else FreeForeign(old(View()))
      ensures p != null && size > 0 ==>
                (View(), q != null) == if p in old(chain) then Realloc(Cfg(), old(View()), k, size, file, line)
                                       else (old(View()), false)
      ensures q != null ==> fresh(q) && q in chain && Fresh(q, size, file, line, old(mwCounter) + 1)
      ensures q != null ==> Moved(if p == null then [] else old(p.bytes), q.bytes, size)
    {
      if p == null {
        q := MwMalloc(size, file, line);
        return;
      }
      if size == 0 {
        MwFree(p, k);
        return null;
      }
      q := ReallocBlock(p, k, size, file, line, Cfg(), View());
    }

    /** mwRealloc past its tests for a null pointer and for size zero. */
    method ReallocBlock(p: Block, ghost k: nat, size: Size, file: FileName, line: int, ghost cfg: Config,
                        ghost h: Heap) returns (q: Block?)
      requires Valid() && cfg == Cfg() && h == View() && size > 0
      requires MayFree(p, k)
      modifies this, p, (if mwHead == null then {} else {mwHead})`prev
      modifies (if p !in chain || p.prev == null then {} else {p.prev})`next
      modifies (if p !in chain || p.next == null then {} else {p.next})`prev
      ensures Valid() && mwUseLimit == old(mwUseLimit)
      ensures (View(), q != null) == if p in old(chain) then Realloc(cfg, h, k, size, file, line) else (h, false)
      ensures q != null ==> fresh(q) && q in chain && Fresh(q, size, file, line, h.counter + 1)
      ensures q != null ==> Moved(old(p.bytes), q.bytes, size)
    {
      var owned := AskOwned(p, k);
      if owned && !p.nml {
        q := ReallocOwned(p, k, size, file, line, cfg, h);
      } else {
        q := null;
      }
    }

    /** mwRealloc of a block that memwatch owns and that is not no-man's-land. */
    method ReallocOwned(p: Block, ghost k: nat, size: Size, file: FileName, line: int, ghost cfg: Config,
                        ghost h: Heap) returns (q: Block?)
      requires Valid() && cfg == Cfg() && h == View() && k < |chain| && chain[k] == p && !infos[k].nml
      modifies this, p, (if mwHead == null then {} else {mwHead})`prev
      modifies (if p.prev == null then {} else {p.prev})`next, (if p.next == null then {} else {p.next})`prev
      ensures Valid() && mwUseLimit == old(mwUseLimit)
      ensures (View(), q != null) == Realloc(cfg, h, k, size, file, line)
      ensures q != null ==> fresh(q) && q in chain && Fresh(q, size, file, line, h.counter + 1)
      ensures q != null ==> Moved(old(p.bytes), q.bytes, size)
    {
      OneDescribed(chain, infos, safe, k);
      if mwUseLimit && size + mwStatCurAlloc - p.size > mwAllocLimit {
        mwCounter := mwCounter + 1;
        return null;
      }
      q := MoveUnlimited(p, k, size, file, line, cfg.(useLimit := false), h);
    }

    method MoveUnlimited(p: Block, ghost k: nat, size: Size, file: FileName, line: int, ghost cfg: Config,
                         ghost h: Heap) returns (q: Block)
      requires Valid() && cfg == Cfg().(useLimit := false) && h == View() && k < |chain| && chain[k] == p
      modifies this, p, (if mwHead == null then {} else {mwHead})`prev
      modifies (if p.prev == null then {} else {p.prev})`next, (if p.next == null then {} else {p.next})`prev
      ensures Valid() && mwUseLimit == old(mwUseLimit) && View() == Free(cfg, Granted(cfg, h, size, file, line), k + 1)
      ensures fresh(q) && q in chain && Fresh(q, size, file, line, h.counter + 1)
      ensures Moved(old(p.bytes), q.bytes, size)
    {
      var oldUseLimit := mwUseLimit;
      mwUseLimit := false;
      ghost var grown := Granted(cfg, h, size, file, line);
      q := Move(p, k, size, file, line, cfg, h, grown, Free(cfg, grown, k + 1));
      mwUseLimit := oldUseLimit;
    }
  }
}
