/**
  The ring buffer of com_queue.cpp, used from one thread at a time: index,
  counter, semaphore and slot locks are updated in place as the source does.
  Blocking calls are not modelled here: a caller must know that the semaphore
  and the slot lock it needs are available. CQueueThreads models the blocking.
*/
module CQueue {
  import opened Common
  import opened DropOldest

  type Frame = seq<Byte>

  /** The macro LOOP_ADD: the index after i in a ring of r slots. */
  function LoopAdd(i: nat, r: nat): nat {
    if i + 1 >= r then 0 else i + 1
  }

  /** How many places slot i lies after slot base in a ring of r slots. */
  function Offset(r: nat, base: nat, i: nat): nat
    requires base < r && i < r
  {
    if base <= i then i - base else i + r - base
  }

  /** The slot k places after base; both are below the ring size. */
  function Wrap(r: nat, base: nat, k: nat): nat
    requires base < r && k <= r
  {
    if base + k < r then base + k else base + k - r
  }

  lemma SmallMultiple(d: int, r: int)
    requires -r < d * r < r
    ensures d == 0
  {
    assert d == 0 || d * r >= r || d * r <= -r;
  }

  /** Wrap is the remainder the ring indices are meant to follow, and Offset undoes it. */
  lemma WrapIsMod(r: nat, base: nat, k: nat)
    requires base < r && k <= r
    ensures Wrap(r, base, k) == (base + k) % r
    ensures k < r ==> Offset(r, base, Wrap(r, base, k)) == k
  {
    var x := base + k;
    var q := if x < r then 0 else 1;
    assert (q - x / r) * r == x % r - Wrap(r, base, k);
    SmallMultiple(q - x / r, r);
  }

  /** What push stores of a frame: its first bytes, as many as fit a slot. */
  function Stored(frame: Frame, mframeLen: nat): (r: Frame)
    ensures r <= frame && |r| == Min(|frame|, mframeLen)
  {
    frame[..Min(|frame|, mframeLen)]
  }

  /** One QUEUE_NODE: whether its mutex is held, and the bytes of its slot. */
  datatype QueueNode = QueueNode(mlock: bool, datalen: nat, data: seq<Byte>) {
    ghost predicate Holds(frame: Frame) {
      datalen == |frame| <= |data| && data[..datalen] == frame
    }
  }

  /**
    What every operation keeps, on values: the indices, the counter and the
    semaphore describe one window of unlocked slots, and that window holds the
    frames of contents, oldest first. A locked slot is never in the window.
  */
  ghost predicate Ring(que: seq<QueueNode>, frameLen: nat, inx: nat, outx: nat, eff: nat, sem: nat,
                       contents: seq<Frame>) {
    && inx < |que| && outx < |que|
    && sem == eff == |contents| <= |que|
    && inx == Wrap(|que|, outx, eff)
    && (forall i: nat | i < |que| :: |que[i].data| == frameLen)
    && (forall i: nat | i < |que| && Offset(|que|, outx, i) < eff ::
          !que[i].mlock && que[i].Holds(contents[Offset(|que|, outx, i)]))
  }

  /** Writing slot inx and moving the window on appends the frame, at the cost of the oldest when full. */
  lemma PushKeepsRing(que: seq<QueueNode>, frameLen: nat, inx: nat, outx: nat, eff: nat, contents: seq<Frame>,
                      node: QueueNode, frame: Frame)
    requires Ring(que, frameLen, inx, outx, eff, eff, contents)
    requires !node.mlock && node.Holds(frame) && |node.data| == frameLen
    ensures var full := eff == |que|;
            Ring(que[inx := node], frameLen, LoopAdd(inx, |que|),
                 if full then LoopAdd(outx, |que|) else outx,
                 if full then eff else eff + 1, if full then eff else eff + 1,
                 (if full then contents[1..] else contents) + [frame])
  {
  }

  /** Moving outx past its slot removes the oldest frame; locking that slot or not does not matter. */
  lemma TakeKeepsRing(que: seq<QueueNode>, frameLen: nat, inx: nat, outx: nat, eff: nat, contents: seq<Frame>,
                      lock: bool)
    requires Ring(que, frameLen, inx, outx, eff, eff, contents) && 0 < eff
    ensures Ring(que[outx := que[outx].(mlock := lock)], frameLen, inx, LoopAdd(outx, |que|), eff - 1, eff - 1,
            contents[1..])
    ensures que[outx].Holds(contents[0])
  {
    assert Offset(|que|, outx, outx) == 0;
  }

  class CQueue {
    const maxFrames: nat
    const mframeLen: nat
    const que: array<QueueNode>
    var mInindex: nat
    var mOutindex: nat
    var mEffectives: nat
    var mSem: nat

    // The frames waiting in the ring, oldest first, and every event so far.
    ghost var contents: seq<Frame>
    ghost var history: seq<Event<Frame>>

    ghost predicate Valid()
      reads this, que
    {
      && 0 < maxFrames == que.Length
      && Ring(que[..], mframeLen, mInindex, mOutindex, mEffectives, mSem, contents)
      && After(maxFrames, history) == Some(contents)
    }

    constructor (frames: nat, singleFrameLen: nat)
      requires 0 < frames
      ensures Valid() && fresh(que) && maxFrames == frames && mframeLen == singleFrameLen
      ensures contents == [] && history == [] && forall i | 0 <= i < frames :: !que[i].mlock
    {
      maxFrames, mframeLen := frames, singleFrameLen;
      que := new QueueNode[frames](_ => QueueNode(false, 0, seq(singleFrameLen, _ => 0)));
      mInindex, mOutindex, mEffectives, mSem := 0, 0, 0, 0;
      contents, history := [], [];
    }

    method AddInindex()
      modifies this`mInindex
      ensures mInindex == LoopAdd(old(mInindex), maxFrames)
    {
      mInindex := LoopAdd(mInindex, maxFrames);
    }

    method AddOutindex()
      modifies this`mOutindex
      ensures mOutindex == LoopAdd(old(mOutindex), maxFrames)
    {
      mOutindex := LoopAdd(mOutindex, maxFrames);
    }

    method IncreaseEffectives() returns (ret: nat)
      modifies this`mEffectives
      ensures ret == old(mEffectives)
      ensures mEffectives == if ret + 1 > maxFrames then maxFrames else ret + 1
    {
      ret := mEffectives;
      mEffectives := mEffectives + 1;
      if mEffectives > maxFrames {
        mEffectives := maxFrames;
      }
    }

    method ReduceEffectives() returns (ret: nat)
      modifies this`mEffectives
      ensures ret == old(mEffectives)
      ensures mEffectives == if ret == 0 then 0 else ret - 1
    {
      ret := mEffectives;
      var reduced: int := mEffectives - 1;
      mEffectives := if reduced < 0 then 0 else reduced;
    }

    method SemTrywait()
      modifies this`mSem
      ensures mSem == if old(mSem) == 0 then 0 else old(mSem) - 1
    {
      if mSem > 0 {
        mSem := mSem - 1;
      }
    }

    method Lock(i: nat)
      requires i < que.Length && !que[i].mlock
      modifies que
      ensures que[..] == old(que[..])[i := old(que[i]).(mlock := true)]
    {
      que[i] := que[i].(mlock := true);
    }

    method Unlock(i: nat)
      requires i < que.Length && que[i].mlock
      modifies que
      ensures que[..] == old(que[..])[i := old(que[i]).(mlock := false)]
    {
      que[i] := que[i].(mlock := false);
    }

    /** Appends the frame, cut to one slot; a full ring loses its oldest frame. */
    method Push(src: Frame) returns (copylen: nat)
      requires Valid() && !que[mInindex].mlock
      modifies this, que
      ensures Valid()
      ensures copylen == Min(|src|, mframeLen) && que[old(mInindex)].Holds(src[..copylen])
      ensures history == old(history) + [Pushed(src[..copylen])]
      ensures contents
              == (if |old(contents)| < maxFrames then old(contents) else old(contents)[1..]) + [src[..copylen]]
      ensures |src| <= mframeLen ==> contents[|contents| - 1] == src
      ensures forall i | 0 <= i < maxFrames && i != old(mInindex) :: que[i] == old(que[i])
      ensures !que[old(mInindex)].mlock
    {
      var iIn := mInindex;
      Lock(iIn);
      copylen := Min(|src|, mframeLen);
      que[iIn] := que[iIn].(data := src[..copylen] + que[iIn].data[copylen..], datalen := copylen);
      AddInindex();
      mSem := mSem + 1;
      var before := IncreaseEffectives();
      if before == maxFrames {
        SemTrywait();
        AddOutindex();
      }
      Unlock(iIn);

      PushKeepsRing(old(que[..]), mframeLen, iIn, old(mOutindex), before, contents, que[iIn], src[..copylen]);
      assert que[..] == old(que[..])[iIn := que[iIn]];
      Record(Pushed(src[..copylen]));
    }

    /** Appends one event to the history. */
    ghost method Record(e: Event<Frame>)
      requires 0 < maxFrames && After(maxFrames, history) == Some(contents) && Apply(maxFrames, contents, e).Some?
      modifies this`contents, this`history
      ensures Some(contents) == Apply(maxFrames, old(contents), e)
      ensures history == old(history) + [e] && After(maxFrames, history) == Some(contents)
    {
      ghost var before := history;
      contents := Apply(maxFrames, contents, e).value;
      history := history + [e];
      assert history[..|history| - 1] == before;
    }

    /** memcpy */
    static method CopyOut(dst: array<Byte>, src: seq<Byte>, n: nat)
      requires n <= |src| && n <= dst.Length
      modifies dst
      ensures dst[..] == src[..n] + old(dst[..])[n..]
    {
      forall j | 0 <= j < n {
        dst[j] := src[j];
      }
    }

    /** Copies the oldest frame out, cut to the caller's buffer; an empty ring gives 0. */
    method Pop(dst: array?<Byte>, len: nat) returns (copylen: nat)
      requires Valid() && !que[mOutindex].mlock
      requires dst != null ==> len <= dst.Length && dst as object != que
      modifies this, que, dst
      ensures Valid() && forall i | 0 <= i < maxFrames :: que[i] == old(que[i])
      ensures old(contents) == [] ==> copylen == 0 && contents == [] && history == old(history)
      ensures old(contents) != [] ==>
                && copylen == Min(len, |old(contents)[0]|)
                && contents == old(contents)[1..]
                && history == old(history) + [Delivered(old(contents)[0])]
      ensures dst != null ==>
                dst[..] == (if old(contents) == [] then [] else old(contents)[0][..copylen]) + old(dst[..])[copylen..]
    {
      SemTrywait();
      var iout := mOutindex;
      Lock(iout);
      var before := ReduceEffectives();
      if before == 0 {
        mEffectives := 0;
        Unlock(iout);
        assert que[..] == old(que[..]);
        return 0;
      }
      TakeKeepsRing(old(que[..]), mframeLen, mInindex, iout, before, contents, false);
      copylen := Min(len, que[iout].datalen);
      if dst != null {
        CopyOut(dst, que[iout].data, copylen);
      }
      AddOutindex();
      Unlock(iout);
      assert que[..] == old(que[..])[iout := old(que[iout]).(mlock := false)] == old(que[..]);
      Record(Delivered(contents[0]));
    }

    /** Hands out the slot of the oldest frame and keeps it locked. */
    method GetBuffer() returns (index: nat, len: nat)
      requires Valid() && 0 < mSem && !que[mOutindex].mlock
      modifies this, que
      ensures Valid() && old(contents) != []
      ensures index == old(mOutindex) && que[index].Holds(old(contents)[0]) && len == |old(contents)[0]|
      ensures que[..] == old(que[..])[index := old(que[index]).(mlock := true)]
      ensures mOutindex == LoopAdd(index, maxFrames) && mEffectives == old(mEffectives) - 1
      ensures contents == old(contents)[1..] && |contents| < maxFrames
      ensures history == old(history) + [Delivered(old(contents)[0])]
    {
      mSem := mSem - 1;
      index := mOutindex;
      Lock(index);
      var before := ReduceEffectives();
      assert before != 0;
      len := que[index].datalen;
      AddOutindex();
      TakeKeepsRing(old(que[..]), mframeLen, mInindex, index, before, contents, true);
      Record(Delivered(contents[0]));
    }

    /** Unlocks a borrowed slot; an index outside the ring is ignored. */
    method ReleaseBuffer(index: int) returns (ret: int)
      requires Valid()
      requires 0 <= index < maxFrames ==> que[index].mlock
      modifies que
      ensures Valid() && ret == 0
      ensures que[..] == if 0 <= index < maxFrames then old(que[..])[index := old(que[index]).(mlock := false)]
              else old(que[..])
    {
      if 0 <= index < maxFrames {
        Unlock(index);
      }
      ret := 0;
    }

    /** While any slot is borrowed the ring is not full, so nothing unread can be overwritten. */
    lemma BorrowLeavesRoom(i: nat)
      requires Valid() && i < maxFrames && que[i].mlock
      ensures mEffectives < maxFrames
      ensures forall f :: Apply(maxFrames, contents, Pushed(f)) == Some(contents + [f])
    {
      assert Offset(maxFrames, mOutindex, i) >= mEffectives;
    }
  }
}
