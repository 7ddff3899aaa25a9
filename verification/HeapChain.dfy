/**
  The block chain of memwatch.cpp: the doubly linked list of allocation headers,
  the validator that must cope with any damaged graph, and unlinking. Addresses
  that mwIsSafeAddr would accept are given as a set of blocks.
*/
module HeapChain {
  import opened Common

  /** One mwData header. The user's bytes stand for the memory after it. */
  class Block {
    var prev: Block?
    var next: Block?
    var file: Option<string>
    var count: int
    var check: nat
    var size: nat
    var line: int
    var nml: bool
    var bytes: seq<Byte>

    constructor (count: int, prev: Block?, next: Block?, file: Option<string>, size: nat, line: int, bytes: seq<Byte>)
      ensures this.count == count && this.prev == prev && this.next == next && this.file == file
      ensures this.size == size && this.line == line && !nml && this.bytes == bytes
      ensures check == ChkVal(count, size, line)
    {
      this.count, this.prev, this.next, this.file := count, prev, next, file;
      this.size, this.line, this.nml, this.bytes := size, line, false, bytes;
      this.check := ChkVal(count, size, line);
    }
  }

  /** A value as the bits of a 64-bit word. */
  function Word(x: int): nat {
    x % 0x1_0000_0000_0000_0000
  }

  /** Bitwise exclusive or of two words. */
  function Xor(a: nat, b: nat): nat {
    if a == 0 && b == 0 then 0 else (a + b) % 2 + 2 * Xor(a / 2, b / 2)
  }

  /** The macro CHKVAL. */
  function ChkVal(count: int, size: int, line: int): nat {
    Xor(Xor(Xor(0xFE0180, Word(count)), Word(size)), Word(line))
  }

  /** The blocks of c, in order, are exactly the list from head to tail. */
  ghost predicate Chain(c: seq<Block>, head: Block?, tail: Block?)
    reads c`prev, c`next
  {
    if c == [] then head == null && tail == null
    else
      && head == c[0] && tail == c[|c| - 1]
      && forall i | 0 <= i < |c| :: Linked(c, i)
  }

  /** Block i of c points to its neighbours. */
  ghost predicate Linked(c: seq<Block>, i: nat)
    requires i < |c|
    reads {c[i]}`prev, {c[i]}`next
  {
    && c[i].prev == (if i == 0 then null else c[i - 1])
    && c[i].next == (if i == |c| - 1 then null else c[i + 1])
  }

  ghost predicate Distinct(c: seq<Block>) {
    forall i, j | 0 <= i < j < |c| :: c[i] != c[j]
  }

  /** The links forbid a block to occur twice. */
  lemma {:induction false} ChainIsDistinct(c: seq<Block>, head: Block?, tail: Block?, i: nat, j: nat)
    requires Chain(c, head, tail) && i < j < |c|
    ensures c[i] != c[j]
    decreases i
  {
    assert Linked(c, i) && Linked(c, j);
    if i > 0 {
      ChainIsDistinct(c, head, tail, i - 1, j - 1);
    }
  }

  ghost predicate BackLinked(c: seq<Block>, i: nat)
    requires i < |c|
    reads {c[i]}`prev
  {
    c[i].prev == if i == 0 then null else c[i - 1]
  }

  ghost predicate ForwardLinked(c: seq<Block>, i: nat)
    requires i < |c| - 1
    reads {c[i]}`next
  {
    c[i].next == c[i + 1]
  }

  /** c is what following next from head has visited so far, with the prev pointers that were checked on the way. */
  ghost predicate Visited(c: seq<Block>, head: Block?, mw: Block?)
    reads c`prev, c`next, (if mw == null then {} else {mw})`prev
  {
    && (c == [] ==> mw == head)
    && (c != [] ==> c[0] == head && mw == c[|c| - 1].next)
    && (forall i | 0 <= i < |c| :: BackLinked(c, i))
    && (forall i | 0 <= i < |c| - 1 :: ForwardLinked(c, i))
    && (c != [] && mw != null ==> mw.prev == c[|c| - 1])
  }

  /** The next block has not been visited: every visited block already has another prev. */
  lemma {:induction false} NoRevisit(c: seq<Block>, head: Block?, mw: Block?)
    requires Visited(c, head, mw) && Distinct(c) && mw != null
    ensures mw !in c
  {
    forall j | 0 <= j < |c|
      ensures c[j] != mw
    {
      assert BackLinked(c, j);
      assert mw.prev == c[|c| - 1] && (j > 0 ==> c[j - 1] != c[|c| - 1]);
    }
  }

  /** Any proper chain from head starts with what has been visited. */
  lemma {:induction false} VisitedIsPrefix(c: seq<Block>, head: Block?, mw: Block?, d: seq<Block>, tail: Block?, n: nat)
    requires Visited(c, head, mw) && Chain(d, head, tail) && d != [] && n <= |c|
    requires mw != null || n < |c|
    ensures n < |d| && d[n] == (if n == |c| then mw else c[n])
  {
    if n > 0 {
      VisitedIsPrefix(c, head, mw, d, tail, n - 1);
      assert Linked(d, n - 1) && d[n - 1] == c[n - 1];
      assert n < |c| ==> ForwardLinked(c, n - 1);
    }
  }

  /** Head and tail leave no choice of chain. */
  lemma {:induction false} ChainIsUnique(c: seq<Block>, d: seq<Block>, head: Block?, tail: Block?, n: nat)
    requires Chain(c, head, tail) && Chain(d, head, tail) && n < |c|
    ensures n < |d| && c[n] == d[n]
  {
    if n > 0 {
      ChainIsUnique(c, d, head, tail, n - 1);
      assert Linked(c, n - 1) && Linked(d, n - 1);
    }
  }

  /** What the validator is for: a proper list of legal blocks from head to tail with the requested one in it. */
  ghost predicate ProperHeap(c: seq<Block>, head: Block?, tail: Block?, includes: Block?, safe: set<Block>)
    reads c`prev, c`next
  {
    && Chain(c, head, tail)
    && (forall b | b in c :: b in safe)
    && (includes != null ==> includes in c)
  }

  /** What a proper list looks like from one of its blocks. */
  ghost predicate LooksProper(mw: Block, head: Block?, tail: Block?, safe: set<Block>)
    reads mw, mw.prev, mw.next
  {
    && mw in safe
    && (mw.prev != null ==> mw.prev in safe && mw != head && mw.prev.next == mw)
    && (mw.next != null ==> mw.next in safe && mw != tail && mw.next.prev == mw)
    && (mw.next == null ==> mw == tail)
  }

  /** When a proper list exists, the visited blocks and the next one look proper. */
  lemma NextLooksProper(c: seq<Block>, mw: Block, d: seq<Block>, head: Block?, tail: Block?, includes: Block?,
                        safe: set<Block>)
    requires Visited(c, head, mw) && ProperHeap(d, head, tail, includes, safe) && d != []
    ensures LooksProper(mw, head, tail, safe)
  {
    var n := |c|;
    VisitedIsPrefix(c, head, mw, d, tail, n);
    assert Linked(d, n) && mw in d;
    if n > 0 {
      assert Linked(d, n - 1) && d[n - 1] in d;
      ChainIsDistinct(d, head, tail, 0, n);
    }
    if n < |d| - 1 {
      assert Linked(d, n + 1) && d[n + 1] in d;
      ChainIsDistinct(d, head, tail, n, |d| - 1);
    }
  }

  /** At the end of the list the visited blocks are all of it. */
  lemma EndIsReached(c: seq<Block>, d: seq<Block>, head: Block?, tail: Block?, includes: Block?, safe: set<Block>)
    requires Visited(c, head, null) && ProperHeap(d, head, tail, includes, safe) && d != [] && c != []
    ensures d == c
  {
    forall n: nat | n < |c|
      ensures n < |d| && d[n] == c[n]
    {
      VisitedIsPrefix(c, head, null, d, tail, n);
    }
    assert Linked(d, |c| - 1);
  }

  /**
    mwIsHeapOK. It terminates on every graph, cyclic ones included, and accepts
    exactly the proper lists; with a null head it looks at nothing but the
    requested block.
  */
  method IsHeapOk(mwHead: Block?, mwTail: Block?, includes: Block?, safe: set<Block>) returns (ok: bool)
    ensures mwHead == null ==> (ok <==> includes == null)
    ensures mwHead != null && ok ==> exists c: seq<Block> :: ProperHeap(c, mwHead, mwTail, includes, safe)
    ensures mwHead != null && !ok ==> forall c: seq<Block> :: !ProperHeap(c, mwHead, mwTail, includes, safe)
  {
    var found := 0;
    var mw := mwHead;
    ghost var c: seq<Block> := [];
    while mw != null
      invariant Visited(c, mwHead, mw) && Distinct(c)
      invariant forall b | b in c :: b in safe
      invariant found > 0 <==> includes != null && includes in c
      invariant mwHead != null && mw == null ==> c != [] && c[|c| - 1] == mwTail
      decreases safe - (set b | b in c)
    {
      NoRevisit(c, mwHead, mw);
      forall d | ProperHeap(d, mwHead, mwTail, includes, safe)
        ensures LooksProper(mw, mwHead, mwTail, safe)
      {
        NextLooksProper(c, mw, d, mwHead, mwTail, includes, safe);
      }
      if includes == mw {
        found := found + 1;
      }
      if mw !in safe {
        return false;
      }
      if mw.prev != null {
        if mw.prev !in safe {
          return false;
        }
        if mw == mwHead || mw.prev.next != mw {
          return false;
        }
      }
      if mw.next != null {
        if mw.next !in safe {
          return false;
        }
        if mw == mwTail || mw.next.prev != mw {
          return false;
        }
      } else if mw != mwTail {
        return false;
      }
      VisitOne(c, mwHead, mw);
      assert mw in safe - (set b | b in c) && mw !in safe - (set b | b in c + [mw]);
      c := c + [mw];
      mw := mw.next;
    }
    forall d | mwHead != null && ProperHeap(d, mwHead, mwTail, includes, safe)
      ensures d == c
    {
      EndIsReached(c, d, mwHead, mwTail, includes, safe);
    }
    if includes != null && found == 0 {
      return false;
    }
    assert mwHead != null ==> ProperHeap(c, mwHead, mwTail, includes, safe) by {
      forall i | 0 <= i < |c|
        ensures Linked(c, i)
      {
        assert BackLinked(c, i) && (i < |c| - 1 ==> ForwardLinked(c, i));
      }
    }
    return true;
  }

  lemma VisitOne(c: seq<Block>, head: Block?, mw: Block)
    requires Visited(c, head, mw) && (c == [] ==> mw.prev == null) && (mw.next != null ==> mw.next.prev == mw)
    ensures Visited(c + [mw], head, mw.next)
  {
    var d := c + [mw];
    forall i | 0 <= i < |d|
      ensures BackLinked(d, i)
    {
      if i < |c| {
        assert BackLinked(c, i);
      }
    }
    forall i | 0 <= i < |d| - 1
      ensures ForwardLinked(d, i)
    {
      if i < |c| - 1 {
        assert ForwardLinked(c, i);
      }
    }
  }
}
