/** What the headers of the block chain say, and when the chain counts as undamaged. */
module HeapHeaders {
  import opened Common
  import opened HeapChain
  import opened HeapRepair
  import opened MemWatchSpec

  /** The header describes a real allocation, whatever its checksum says. */
  ghost predicate Sound(b: Block)
    reads b`size, b`count, b`bytes
  {
    b.size < 0x8000_0000_0000_0000 && b.count >= 0 && |b.bytes| == b.size
  }

  ghost function InfoOf(b: Block): Info
    requires Sound(b)
    reads b`size, b`count, b`bytes, b`line, b`file, b`nml
  {
    Info(b.file, b.line, b.size, b.count, b.nml)
  }

  /** The headers of c say what infos says. */
  ghost predicate Describes(infos: seq<Info>, c: seq<Block>)
    reads c`size, c`count, c`bytes, c`line, c`file, c`nml
  {
    |infos| == |c| && forall i | 0 <= i < |c| :: Sound(c[i]) && infos[i] == InfoOf(c[i])
  }

  predicate Checked(b: Block)
    reads b`size, b`count, b`line, b`check
  {
    b.check == ChkVal(b.count, b.size, b.line)
  }

  /** The headers of c are described by infos, at legal addresses, and their checksums are good. */
  ghost predicate Healthy(c: seq<Block>, infos: seq<Info>, safe: set<Block>)
    reads c`size, c`count, c`bytes, c`line, c`file, c`nml, c`check
  {
    Describes(infos, c) && forall b | b in c :: b in safe && Checked(b)
  }

  /** The blocks of c are a proper chain of healthy headers. */
  ghost predicate Undamaged(c: seq<Block>, infos: seq<Info>, head: Block?, tail: Block?, safe: set<Block>)
    reads c
  {
    Chain(c, head, tail) && Healthy(c, infos, safe)
  }

  lemma HealthyFront(mw: Block, c: seq<Block>, infos: seq<Info>, safe: set<Block>)
    requires Healthy(c, infos, safe) && Sound(mw) && Checked(mw)
    ensures Healthy([mw] + c, [InfoOf(mw)] + infos, safe + {mw})
  {
    var d, all := [mw] + c, [InfoOf(mw)] + infos;
    forall i | 0 <= i < |d|
      ensures Sound(d[i]) && all[i] == InfoOf(d[i])
    {
      if i > 0 {
        assert d[i] == c[i - 1] && all[i] == infos[i - 1];
      }
    }
    forall b | b in d
      ensures b in safe + {mw} && Checked(b)
    {
      assert b == mw || b in c;
    }
  }

  /** PushFront of a healthy header keeps the chain undamaged. */
  method AddFront(mwHead: Block?, mwTail: Block?, mw: Block, ghost c: seq<Block>, ghost infos: seq<Info>,
                  ghost safe: set<Block>)
    returns (head: Block, tail: Block)
    requires Undamaged(c, infos, mwHead, mwTail, safe) && mw !in c && mw.prev == null && mw.next == mwHead
    requires Sound(mw) && Checked(mw)
    modifies (if mwHead == null then {} else {mwHead})`prev
    ensures Undamaged([mw] + c, [InfoOf(mw)] + infos, head, tail, safe + {mw})
  {
    head, tail := PushFront(mwHead, mwTail, mw, c);
    HealthyFront(mw, c, infos, safe);
  }

  /** All headers but that of mw are healthy. */
  ghost predicate HealthyExcept(c: seq<Block>, infos: seq<Info>, safe: set<Block>, mw: Block)
    reads set b | b in c && b != mw
  {
    && |infos| == |c|
    && forall i | 0 <= i < |c| && c[i] != mw :: Sound(c[i]) && infos[i] == InfoOf(c[i]) && c[i] in safe && Checked(c[i])
  }

  lemma OneDescribed(c: seq<Block>, infos: seq<Info>, safe: set<Block>, k: nat)
    requires Healthy(c, infos, safe) && k < |c|
    ensures Sound(c[k]) && infos[k] == InfoOf(c[k])
  {
  }

  lemma AllBut(c: seq<Block>, infos: seq<Info>, safe: set<Block>, k: nat)
    requires Healthy(c, infos, safe) && k < |c|
    ensures HealthyExcept(c, infos, safe, c[k]) && Sound(c[k]) && Checked(c[k]) && c[k] in safe
            && infos[k] == InfoOf(c[k])
  {
  }

  lemma AllIfForeign(c: seq<Block>, infos: seq<Info>, safe: set<Block>, mw: Block)
    requires mw !in c && HealthyExcept(c, infos, safe, mw)
    ensures Healthy(c, infos, safe)
  {
  }

  lemma OneRestored(c: seq<Block>, infos: seq<Info>, head: Block?, tail: Block?, safe: set<Block>, k: nat)
    requires k < |c| && Chain(c, head, tail) && HealthyExcept(c, infos, safe, c[k]) && Sound(c[k]) && Checked(c[k])
             && c[k] in safe
    ensures Undamaged(c, infos[k := InfoOf(c[k])], head, tail, safe)
  {
    forall i | 0 <= i < |c| && i != k
      ensures c[i] != c[k]
    {
      ChainIsDistinct(c, head, tail, if i < k then i else k, if i < k then k else i);
    }
  }

  /** Without one block the rest is still healthy. */
  lemma OneLess(c: seq<Block>, infos: seq<Info>, safe: set<Block>, k: nat)
    requires Healthy(c, infos, safe) && k < |c|
    ensures Healthy(Without(c, k), Without(infos, k), safe)
  {
    forall b | b in Without(c, k) ensures b in c { }
  }

  lemma OneMarked(c: seq<Block>, infos: seq<Info>, head: Block?, tail: Block?, safe: set<Block>, k: nat)
    requires k < |c| && Chain(c, head, tail) && HealthyExcept(c, infos, safe, c[k]) && Sound(c[k]) && Checked(c[k])
             && c[k] in safe
    requires infos[k].(nml := true) == InfoOf(c[k])
    ensures Undamaged(c, infos[k := infos[k].(nml := true)], head, tail, safe)
  {
    OneRestored(c, infos, head, tail, safe, k);
  }

  // The checksum of freed memory.

  function Bit(x: nat, n: nat): nat {
    if n == 0 then x % 2 else Bit(x / 2, n - 1)
  }

  lemma XorHalves(a: nat, b: nat)
    ensures Xor(a, b) % 2 == (a + b) % 2 && Xor(a, b) / 2 == Xor(a / 2, b / 2)
  {
    var rest, bit := Xor(a / 2, b / 2), (a + b) % 2;
    assert (bit + 2 * rest) % 2 == bit && (bit + 2 * rest) / 2 == rest;
  }

  lemma {:induction false} XorBit(a: nat, b: nat, n: nat)
    ensures Bit(Xor(a, b), n) == (Bit(a, n) + Bit(b, n)) % 2
  {
    XorHalves(a, b);
    if n == 0 {
      ModTwice(a, b % 2);
      ModTwice(b, a);
      assert Bit(Xor(a, b), 0) == (a + b) % 2;
    } else {
      XorBit(a / 2, b / 2, n - 1);
    }
  }

  /** Numbers with the same bits are the same. */
  lemma {:induction false} BitsDecide(a: nat, b: nat)
    requires forall n: nat :: Bit(a, n) == Bit(b, n)
    ensures a == b
    decreases a + b
  {
    if a + b > 0 {
      forall n: nat
        ensures Bit(a / 2, n) == Bit(b / 2, n)
      {
        assert Bit(a, n + 1) == Bit(b, n + 1);
      }
      BitsDecide(a / 2, b / 2);
      assert Bit(a, 0) == Bit(b, 0);
    }
  }

  // What a header reads as once its memory was filled with MW_VAL_DEL.
  const DELETED := 0xFDFD_FDFD_FDFD_FDFD
  const DELETED_COUNT := DELETED - 0x1_0000_0000_0000_0000
  const DELETED_LINE := 0xFDFD_FDFD - 0x1_0000_0000

  lemma ModTwice(x: nat, y: nat)
    ensures (x % 2 + y) % 2 == (x + y) % 2
  {
  }

  lemma XorOfThree(a: nat, b: nat, c: nat, n: nat)
    ensures Bit(Xor(Xor(a, b), c), n) == (Bit(a, n) + Bit(b, n) + Bit(c, n)) % 2
  {
    var x := Xor(a, b);
    XorBit(a, b, n);
    XorBit(x, c, n);
    ModTwice(Bit(a, n) + Bit(b, n), Bit(c, n));
  }

  lemma XorOfFour(a: nat, b: nat, c: nat, d: nat, n: nat)
    ensures Bit(Xor(Xor(Xor(a, b), c), d), n) == (Bit(a, n) + Bit(b, n) + Bit(c, n) + Bit(d, n)) % 2
  {
    var x := Xor(a, b);
    XorBit(a, b, n);
    XorOfThree(x, c, d, n);
    ModTwice(Bit(a, n) + Bit(b, n), Bit(c, n) + Bit(d, n));
  }

  /** Every bit of the checksum is the parity of that bit in the constant, the count, the size and the line. */
  lemma ChecksumBits(count: int, size: int, line: int, n: nat)
    ensures Bit(ChkVal(count, size, line), n)
            == (Bit(0xFE0180, n) + Bit(Word(count), n) + Bit(Word(size), n) + Bit(Word(line), n)) % 2
  {
    XorOfFour(0xFE0180, Word(count), Word(size), Word(line), n);
  }

  lemma {:induction false} BitIsBit(x: nat, n: nat)
    ensures Bit(x, n) < 2
  {
    if n > 0 {
      BitIsBit(x / 2, n - 1);
    }
  }

  /** Damage to one field, whichever it is, never goes unnoticed. */
  lemma OneFieldIsChecked(count: int, size: int, line: int, other: int)
    ensures ChkVal(count, size, line) == ChkVal(other, size, line) ==> Word(count) == Word(other)
    ensures ChkVal(count, size, line) == ChkVal(count, other, line) ==> Word(size) == Word(other)
    ensures ChkVal(count, size, line) == ChkVal(count, size, other) ==> Word(line) == Word(other)
  {
    var all := ChkVal(count, size, line);
    forall n: nat
      ensures Bit(all, n) == Bit(ChkVal(other, size, line), n) ==> Bit(Word(count), n) == Bit(Word(other), n)
      ensures Bit(all, n) == Bit(ChkVal(count, other, line), n) ==> Bit(Word(size), n) == Bit(Word(other), n)
      ensures Bit(all, n) == Bit(ChkVal(count, size, other), n) ==> Bit(Word(line), n) == Bit(Word(other), n)
    {
      OneBitIsChecked(count, size, line, other, n);
    }
    if all == ChkVal(other, size, line) {
      BitsDecide(Word(count), Word(other));
    }
    if all == ChkVal(count, other, line) {
      BitsDecide(Word(size), Word(other));
    }
    if all == ChkVal(count, size, other) {
      BitsDecide(Word(line), Word(other));
    }
  }

  lemma OneBitIsChecked(count: int, size: int, line: int, other: int, n: nat)
    ensures var all := Bit(ChkVal(count, size, line), n);
            && (all == Bit(ChkVal(other, size, line), n) ==> Bit(Word(count), n) == Bit(Word(other), n))
            && (all == Bit(ChkVal(count, other, line), n) ==> Bit(Word(size), n) == Bit(Word(other), n))
            && (all == Bit(ChkVal(count, size, other), n) ==> Bit(Word(line), n) == Bit(Word(other), n))
  {
    ChecksumBits(count, size, line, n);
    ChecksumBits(other, size, line, n);
    ChecksumBits(count, other, line, n);
    ChecksumBits(count, size, other, n);
    BitIsBit(Word(count), n);
    BitIsBit(Word(size), n);
    BitIsBit(Word(line), n);
    BitIsBit(Word(other), n);
    var k, c, s, l, o := Bit(0xFE0180, n), Bit(Word(count), n), Bit(Word(size), n), Bit(Word(line), n),
        Bit(Word(other), n);
    SameParity(c, o, k + s + l);
    SameParity(s, o, k + c + l);
    SameParity(l, o, k + c + s);
  }

  lemma SameParity(x: nat, y: nat, rest: nat)
    requires x < 2 && y < 2
    ensures (rest + x) % 2 == (rest + y) % 2 ==> x == y
  {
  }

  lemma SeventhBits()
    ensures Bit(0xFE0180, 7) == 1 && Bit(DELETED, 7) == 1
    ensures Bit(Word(DELETED_COUNT), 7) == 1 && Bit(Word(DELETED), 7) == 1 && Bit(Word(DELETED_LINE), 7) == 1
  {
    assert Bit(0xFE0180, 7) == 1 && Bit(0xFDFD_FDFD_FDFD_FDFD, 7) == 1 && Bit(0xFFFF_FFFF_FDFD_FDFD, 7) == 1;
  }

  /** A freed header never passes for an allocation. */
  lemma DeletedIsNotChecked()
    ensures ChkVal(DELETED_COUNT, DELETED, DELETED_LINE) != DELETED
  {
    SeventhBits();
    XorOfFour(0xFE0180, Word(DELETED_COUNT), Word(DELETED), Word(DELETED_LINE), 7);
  }

  /** All blocks, whatever their flag. */
  function Total(infos: seq<Info>): nat {
    SizeOf(infos, false) + SizeOf(infos, true)
  }

  lemma {:induction false} NoneLeft(infos: seq<Info>)
    ensures CountOf(infos, false) + CountOf(infos, true) == |infos|
    ensures CountOf(infos, true) == 0 ==> SizeOf(infos, true) == 0
  {
    if infos != [] {
      NoneLeft(infos[1..]);
    }
  }

  /** Sizes and flags do not depend on file names. */
  lemma {:induction false} Renamed(infos: seq<Info>, k: nat, file: FileName, nml: bool)
    requires k < |infos|
    ensures var named := infos[k := infos[k].(file := file)];
            CountOf(named, nml) == CountOf(infos, nml) && SizeOf(named, nml) == SizeOf(infos, nml)
  {
    var named := infos[k := infos[k].(file := file)];
    if k == 0 {
      assert named[1..] == infos[1..];
    } else {
      assert named[1..] == infos[1..][k - 1 := infos[k].(file := file)];
      Renamed(infos[1..], k - 1, file, nml);
    }
  }

  /**
    Counters that agree with the blocks, one of them renamed perhaps: the totals match exactly when there is no
    no-man's-land.
  */
  lemma CountersTell(h: Heap, renamed: bool, k: nat, file: FileName)
    requires CountersAgree(h) && (renamed ==> k < |h.blocks|)
    ensures var infos := if renamed then h.blocks[k := h.blocks[k].(file := file)] else h.blocks;
            && CountersAgree(h.(blocks := infos))
            && (|infos| == h.numCur <==> h.nmlNum == 0)
            && (h.nmlNum == 0 ==> Total(infos) == h.statCur)
  {
    NoneLeft(h.blocks);
    if renamed {
      Renamed(h.blocks, k, file, false);
      Renamed(h.blocks, k, file, true);
    }
  }

  /** The count over the chain with which mwRelink checks its result. */
  method CountChain(mwHead: Block?, ghost mwTail: Block?, ghost c: seq<Block>, ghost infos: seq<Info>)
    returns (count: nat, size: nat)
    requires Chain(c, mwHead, mwTail) && Describes(infos, c)
    ensures count == |c| && size == Total(infos)
  {
    count, size := 0, 0;
    var mw1 := mwHead;
    while mw1 != null
      invariant count <= |c| && mw1 == (if count < |c| then c[count] else null)
      invariant size + Total(infos[count..]) == Total(infos)
      decreases |c| - count
    {
      assert Linked(c, count) && infos[count] == InfoOf(mw1);
      assert infos[count..][1..] == infos[count + 1..];
      count := count + 1;
      size := size + mw1.size;
      mw1 := mw1.next;
    }
  }
}
