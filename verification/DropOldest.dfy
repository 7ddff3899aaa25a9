/**
  The bounded drop-oldest FIFO that CQueue is meant to be, given by the events
  seen at its boundary. Both models of CQueue (the class and the two-thread step
  system) are proved to produce only traces this queue accepts.
*/
module DropOldest {
  import opened Common

  datatype Event<+F> = Pushed(frame: F) | Delivered(frame: F)

  /** The contents after one event, or None when the event cannot happen. */
  function Apply<F(==)>(cap: nat, q: seq<F>, e: Event<F>): Option<seq<F>>
    requires 0 < cap
  {
    match e
    case Pushed(f) => Some(if |q| < cap then q + [f] else q[1..] + [f])
    case Delivered(f) => if q != [] && q[0] == f then Some(q[1..]) else None
  }

  /** The contents after a whole trace from the empty queue, or None when the trace is impossible. */
  function After<F(==)>(cap: nat, t: seq<Event<F>>): Option<seq<F>>
    requires 0 < cap
  {
    if t == [] then Some([]) else
    var before := After(cap, t[..|t| - 1]);
    if before.None? then None else Apply(cap, before.value, t[|t| - 1])
  }

  function Pushes<F>(t: seq<Event<F>>): seq<F> {
    if t == [] then [] else
    Pushes(t[..|t| - 1]) + if t[|t| - 1].Pushed? then [t[|t| - 1].frame] else []
  }

  function Deliveries<F>(t: seq<Event<F>>): seq<F> {
    if t == [] then [] else
    Deliveries(t[..|t| - 1]) + if t[|t| - 1].Delivered? then [t[|t| - 1].frame] else []
  }

  /** How many pushes of the trace found the queue full and threw a frame away. */
  function Overwritten<F(==)>(cap: nat, t: seq<Event<F>>): nat
    requires 0 < cap && After(cap, t).Some?
  {
    if t == [] then 0 else
    var prefix := t[..|t| - 1];
    Overwritten(cap, prefix) + if t[|t| - 1].Pushed? && |After(cap, prefix).value| >= cap then 1 else 0
  }

  /** For each delivery of the trace, which push it hands over. */
  function Sources<F(==)>(cap: nat, t: seq<Event<F>>): seq<int>
    requires 0 < cap && After(cap, t).Some?
  {
    if t == [] then [] else
    var prefix := t[..|t| - 1];
    Sources(cap, prefix) +
    if t[|t| - 1].Delivered? then [|Pushes(prefix)| - |After(cap, prefix).value|] else []
  }

  ghost predicate StrictlyIncreasing(ix: seq<int>) {
    forall i, j | 0 <= i < j < |ix| :: ix[i] < ix[j]
  }

  /** These contents are the newest of the frames pushed, and the rest was delivered or overwritten. */
  predicate Balance<F(==)>(cap: nat, pushed: seq<F>, delivered: seq<F>, q: seq<F>, overwritten: nat) {
    && |q| <= cap
    && |pushed| == |delivered| + |q| + overwritten
    && q == pushed[|pushed| - |q|..]
  }

  predicate Accounted<F(==)>(cap: nat, t: seq<Event<F>>)
    requires 0 < cap && After(cap, t).Some?
  {
    Balance(cap, Pushes(t), Deliveries(t), After(cap, t).value, Overwritten(cap, t))
  }

  lemma BalanceAfterPush<F>(cap: nat, p: seq<F>, d: seq<F>, q: seq<F>, over: nat, f: F)
    requires 0 < cap && Balance(cap, p, d, q, over)
    ensures Balance(cap, p + [f], d, Apply(cap, q, Pushed(f)).value, over + if |q| >= cap then 1 else 0)
  {
    if |q| < cap {
      assert q + [f] == (p + [f])[|p| - |q|..];
    } else {
      assert q[1..] == p[|p| - |q| + 1..];
      assert q[1..] + [f] == (p + [f])[|p| - |q| + 1..];
    }
  }

  lemma BalanceAfterDelivery<F>(cap: nat, p: seq<F>, d: seq<F>, q: seq<F>, over: nat)
    requires Balance(cap, p, d, q, over) && q != []
    ensures Balance(cap, p, d + [q[0]], q[1..], over)
  {
  }

  lemma AccountingStep<F>(cap: nat, t: seq<Event<F>>)
    requires 0 < cap && t != [] && After(cap, t).Some? && Accounted(cap, t[..|t| - 1])
    ensures Accounted(cap, t)
  {
    var prefix := t[..|t| - 1];
    var p, d, q, over := Pushes(prefix), Deliveries(prefix), After(cap, prefix).value, Overwritten(cap, prefix);
    match t[|t| - 1] {
      case Pushed(f) =>
        BalanceAfterPush(cap, p, d, q, over, f);
        assert Pushes(t) == p + [f] && Deliveries(t) == d + [] == d;
      case Delivered(f) =>
        BalanceAfterDelivery(cap, p, d, q, over);
        assert Pushes(t) == p + [] == p && Deliveries(t) == d + [f];
    }
  }

  /** The contents are the newest frames pushed, and every frame is accounted for. */
  lemma {:induction false} Accounting<F>(cap: nat, t: seq<Event<F>>)
    requires 0 < cap && After(cap, t).Some?
    ensures Accounted(cap, t)
  {
    if t != [] {
      Accounting(cap, t[..|t| - 1]);
      AccountingStep(cap, t);
    }
  }

  /**
    What a queue of this kind promises over every trace: the deliveries are an
    in-order subsequence of the pushes in which no push is delivered twice, and
    everything still stored was pushed later than everything delivered.
  */
  lemma {:induction false} InOrderDelivery<F>(cap: nat, t: seq<Event<F>>)
    requires 0 < cap && After(cap, t).Some?
    ensures var p, d, q, ix := Pushes(t), Deliveries(t), After(cap, t).value, Sources(cap, t);
            && |q| <= |p|
            && |ix| == |d|
            && StrictlyIncreasing(ix)
            && forall i | 0 <= i < |ix| :: 0 <= ix[i] < |p| - |q| && d[i] == p[ix[i]]
  {
    Accounting(cap, t);
    if t != [] {
      var prefix, e := t[..|t| - 1], t[|t| - 1];
      InOrderDelivery(cap, prefix);
      Accounting(cap, prefix);
      var p, q, ix := Pushes(prefix), After(cap, prefix).value, Sources(cap, prefix);
      if e.Delivered? {
        var oldest := |p| - |q|;
        assert Sources(cap, t) == ix + [oldest] && Deliveries(t) == Deliveries(prefix) + [e.frame];
        assert e.frame == q[0] == p[oldest];
      } else {
        assert Sources(cap, t) == ix && Deliveries(t) == Deliveries(prefix);
        assert Pushes(t)[..|p|] == p;
      }
    }
  }

  /** The events of pushing these frames one after the other. */
  function AllPushed<F>(frames: seq<F>): seq<Event<F>> {
    if frames == [] then [] else AllPushed(frames[..|frames| - 1]) + [Pushed(frames[|frames| - 1])]
  }

  /** What a queue keeps of more than it can hold: the last ones. */
  function LastOnes<F>(frames: seq<F>, cap: nat): seq<F> {
    if |frames| <= cap then frames else frames[|frames| - cap..]
  }

  lemma OneMorePush<F>(cap: nat, kept: seq<F>, f: F)
    requires 0 < cap
    ensures Apply(cap, LastOnes(kept, cap), Pushed(f)) == Some(LastOnes(kept + [f], cap))
  {
    if |kept| >= cap {
      assert LastOnes(kept, cap)[1..] + [f] == (kept + [f])[|kept| + 1 - cap..];
    }
  }

  lemma AfterOneMore<F>(cap: nat, t: seq<Event<F>>, e: Event<F>)
    requires 0 < cap && After(cap, t).Some?
    ensures After(cap, t + [e]) == Apply(cap, After(cap, t).value, e)
  {
    assert (t + [e])[..|t|] == t;
  }

  /** However many frames are pushed, the queue holds the last ones of what it held and what was pushed. */
  lemma {:induction false} PushesFill<F>(cap: nat, t: seq<Event<F>>, frames: seq<F>)
    requires 0 < cap && After(cap, t).Some?
    ensures After(cap, t + AllPushed(frames)) == Some(LastOnes(After(cap, t).value + frames, cap))
  {
    var q := After(cap, t).value;
    if frames == [] {
      Accounting(cap, t);
      assert t + [] == t && q + [] == q;
    } else {
      var fewer, f := frames[..|frames| - 1], frames[|frames| - 1];
      PushesFill(cap, t, fewer);
      AfterOneMore(cap, t + AllPushed(fewer), Pushed(f));
      OneMorePush(cap, q + fewer, f);
      Assoc(t, AllPushed(fewer), [Pushed(f)]);
      Assoc(q, fewer, [f]);
      assert fewer + [f] == frames;
    }
  }

  /** Nothing is lost exactly when no push found the queue full. */
  lemma {:induction false} LosslessExactly<F>(cap: nat, t: seq<Event<F>>)
    requires 0 < cap && After(cap, t).Some?
    ensures Overwritten(cap, t) == 0 <==> Pushes(t) == Deliveries(t) + After(cap, t).value
  {
    Accounting(cap, t);
    if Overwritten(cap, t) == 0 && t != [] {
      LosslessExactly(cap, t[..|t| - 1]);
      LosslessStep(cap, t);
    }
  }

  lemma LosslessStep<F>(cap: nat, t: seq<Event<F>>)
    requires 0 < cap && t != [] && After(cap, t).Some? && Overwritten(cap, t) == 0
    requires var prefix := t[..|t| - 1]; Pushes(prefix) == Deliveries(prefix) + After(cap, prefix).value
    ensures Pushes(t) == Deliveries(t) + After(cap, t).value
  {
    var prefix, e := t[..|t| - 1], t[|t| - 1];
    var d, q := Deliveries(prefix), After(cap, prefix).value;
    if e.Pushed? {
      Assoc(d, q, [e.frame]);
    } else {
      assert d + q == (d + [q[0]]) + q[1..];
    }
  }
}
