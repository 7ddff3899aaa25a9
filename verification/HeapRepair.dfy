/** Changing the block chain: unlinking a block, and rebuilding the links of a damaged one. */
module HeapRepair {
  import opened Common
  import opened HeapChain

  function Without<T>(c: seq<T>, k: nat): seq<T>
    requires k < |c|
  {
    c[..k] + c[k + 1..]
  }

  /** The first step of mwMalloc's linking: a new block becomes the head. Gives the new mwHead and mwTail. */
  method PushFront(mwHead: Block?, mwTail: Block?, mw: Block, ghost c: seq<Block>) returns (head: Block, tail: Block)
    requires Chain(c, mwHead, mwTail) && mw !in c && mw.prev == null && mw.next == mwHead
    modifies (if mwHead == null then {} else {mwHead})`prev
    ensures Chain([mw] + c, head, tail)
  {
    ghost var d := [mw] + c;
    forall i | 0 < i < |c| ensures c[i] != c[0] { ChainIsDistinct(c, mwHead, mwTail, 0, i); }
    if mwHead != null {
      mwHead.prev := mw;
    }
    head := mw;
    tail := if mwTail == null then mw else mwTail;
    forall i | 0 <= i < |d|
      ensures Linked(d, i)
    {
      if i > 0 {
        assert d[i] == c[i - 1] && old(Linked(c, i - 1));
      }
    }
  }

  /** mwUnlink: takes block k out of the chain and gives the new mwHead and mwTail. */
  method Unlink(mwHead: Block, mwTail: Block, mw: Block, ghost c: seq<Block>, ghost k: nat)
    returns (head: Block?, tail: Block?)
    requires Chain(c, mwHead, mwTail) && k < |c| && mw == c[k]
    modifies (if mw.prev == null then {} else {mw.prev})`next, (if mw.next == null then {} else {mw.next})`prev
    ensures Chain(Without(c, k), head, tail)
    ensures mw !in Without(c, k)
  {
    head, tail := mwHead, mwTail;
    ghost var d := Without(c, k);
    assert Linked(c, k);
    forall i, j | 0 <= i < j < |c| ensures c[i] != c[j] { ChainIsDistinct(c, mwHead, mwTail, i, j); }
    assert k > 0 ==> Linked(c, k - 1);
    assert k < |c| - 1 ==> Linked(c, k + 1);
    if mw.prev == null {
      head := mw.next;
    } else if mw.prev.next == mw {
      mw.prev.next := mw.next;
    }
    if mw.next == null {
      tail := mw.prev;
    } else if mw.next.prev == mw {
      mw.next.prev := mw.prev;
    }
    forall i | 0 <= i < |d|
      ensures Linked(d, i)
    {
      var o := if i < k then i else i + 1;
      assert d[i] == c[o] && old(Linked(c, o));
    }
  }

  /** The chain is intact except, perhaps, for the links of mw, which may be in it or not. */
  ghost predicate IntactExcept(c: seq<Block>, mw: Block, head: Block, tail: Block)
    reads c`prev, c`next
  {
    && c != [] && Distinct(c) && head == c[0] && tail == c[|c| - 1]
    && forall i | 0 <= i < |c| && c[i] != mw :: Linked(c, i)
  }

  /**
    The forward search of mwRelink: finds the block that points to mw and repairs
    mw.prev. The source's exit to its emergency repair is not taken: the
    assertions show that its conditions do not arise.
  */
  method RepairFromHead(mwHead: Block, mw: Block, safe: set<Block>, ghost c: seq<Block>, ghost tail: Block)
    returns (fails: nat)
    requires IntactExcept(c, mw, mwHead, tail) && forall b | b in c :: b in safe
    modifies mw`prev
    ensures fails == if mw in c then 0 else 1
    ensures mw !in c ==> mw.prev == old(mw.prev)
    ensures forall k: nat | k < |c| && c[k] == mw :: BackLinked(c, k)
  {
    fails := 0;
    if mwHead != mw {
      assert mwHead in safe;
      var mw1: Block? := mwHead;
      ghost var i := 0;
      while mw1 != null
        invariant i <= |c| && mw !in c[..i] && mw.next == old(mw.next) && mw.prev == old(mw.prev)
        invariant mw1 == if i < |c| then c[i] else null
        invariant i < |c| ==> mw1 != mw
        decreases |c| - i
      {
        assert Linked(c, i);
        if mw1.next == mw {
          mw.prev := mw1;
          break;
        }
        assert i < |c| - 1 ==> Linked(c, i + 1);
        assert mw1.next != null ==> mw1.next in safe && mw1.next.prev == mw1;
        mw1 := mw1.next;
        i := i + 1;
      }
      if mw1 == null {
        assert c[..i] == c;
        fails := fails + 1;
      }
    } else if mw.prev != null {
      mw.prev := null;
    }
  }

  /** The backward search: finds the block that points back to mw and repairs mw.next. */
  method RepairFromTail(mwTail: Block, mw: Block, safe: set<Block>, ghost c: seq<Block>, ghost head: Block)
    returns (fails: nat)
    requires IntactExcept(c, mw, head, mwTail) && forall b | b in c :: b in safe
    modifies mw`next
    ensures fails == if mw in c then 0 else 1
    ensures mw !in c ==> mw.next == old(mw.next)
    ensures forall k: nat | k < |c| && c[k] == mw :: mw.next == if k == |c| - 1 then null else c[k + 1]
  {
    fails := 0;
    if mwTail != mw {
      assert mwTail in safe;
      var mw1: Block? := mwTail;
      ghost var i := |c| - 1;
      while mw1 != null
        invariant -1 <= i < |c| && mw !in c[i + 1..] && mw.next == old(mw.next) && mw.prev == old(mw.prev)
        invariant mw1 == if 0 <= i then c[i] else null
        invariant 0 <= i ==> mw1 != mw
        decreases i + 1
      {
        assert Linked(c, i);
        if mw1.prev == mw {
          mw.next := mw1;
          break;
        }
        assert 0 < i ==> Linked(c, i - 1);
        assert mw1.prev != null ==> mw1.prev in safe && mw1.prev.next == mw1;
        mw1 := mw1.prev;
        i := i - 1;
      }
      if mw1 == null {
        assert c[i + 1..] == c;
        fails := fails + 1;
      }
    } else if mw.next != null {
      mw.next := null;
    }
  }

  /** Both searches of mwRelink: the chain is as it was before the links of mw were damaged. */
  method RepairLinks(mwHead: Block, mwTail: Block, mw: Block, safe: set<Block>, ghost c: seq<Block>)
    returns (fails: nat)
    requires IntactExcept(c, mw, mwHead, mwTail) && forall b | b in c :: b in safe
    modifies mw`prev, mw`next
    ensures Chain(c, mwHead, mwTail) && fails == if mw in c then 0 else 2
    ensures mw !in c ==> mw.prev == old(mw.prev) && mw.next == old(mw.next)
  {
    fails := RepairFromHead(mwHead, mw, safe, c, mwTail);
    var more := RepairFromTail(mwTail, mw, safe, c, mwHead);
    fails := fails + more;
    forall i | 0 <= i < |c|
      ensures Linked(c, i)
    {
      assert c[i] == mw ==> BackLinked(c, i);
    }
  }
}
