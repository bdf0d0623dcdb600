/**
 * The deferred-destruction queue of the older renderer
 * (libs/graphics/src/context/defer_queue.cpp). Each entry holds a possibly
 * empty callback and a countdown; `decrement` lowers every countdown, runs the
 * callbacks whose countdown has reached zero and drops those entries; `flush`
 * runs everything and empties the queue. Callbacks are opaque ids: running one
 * is recorded by listing its id in the order of the calls.
 */
module DeferQueue {
  import opened Wrappers

  /** An opaque `Deferred::Callback`; `None` is an empty `std::function`. */
  type Callback = nat

  datatype Deferred = Deferred(callback: Option<Callback>, defer: nat)

  type Queue = seq<Deferred>

  /** What one `decrement` leaves behind: the queue, the callbacks run in order, and the returned size. */
  datatype Outcome = Outcome(queue: Queue, invoked: seq<Callback>, pending: nat)

  /** One entry's countdown step: lowered by one, never below zero. */
  function Tick(d: Deferred): (r: Deferred)
    ensures r.callback == d.callback
    ensures r.defer <= d.defer
    ensures d.defer > 0 <==> r.defer + 1 == d.defer
  {
    Deferred(d.callback, if d.defer > 0 then d.defer - 1 else 0)
  }

  /** The result of `decrementImpl`: every entry ticked, and the callbacks now due, in queue order. */
  datatype Pass = Pass(queue: Queue, due: seq<Option<Callback>>)

  /** `decrementImpl`: tick every entry and collect the callbacks of those whose countdown is now zero. */
  function DecrementImpl(q: Queue): (r: Pass)
    ensures |r.queue| == |q|
  {
    if q == [] then Pass([], [])
    else
      var rest := DecrementImpl(q[1..]);
      var t := Tick(q[0]);
      Pass([t] + rest.queue, (if t.defer == 0 then [t.callback] else []) + rest.due)
  }

  /** `decrementImpl` ticks every entry in place. */
  lemma {:induction false} DecrementImplTicks(q: Queue)
    ensures forall i :: 0 <= i < |q| ==> DecrementImpl(q).queue[i] == Tick(q[i])
  {
    if q != [] {
      DecrementImplTicks(q[1..]);
      assert forall i :: 1 <= i < |q| ==> q[1..][i - 1] == q[i];
    }
  }

  /** `invokeImpl`: run each non-empty callback in order; empty ones are skipped. */
  function Invoke(cbs: seq<Option<Callback>>): (r: seq<Callback>)
    ensures |r| <= |cbs|
  {
    if cbs == [] then []
    else
      (if cbs[0].Some? then [cbs[0].value] else []) + Invoke(cbs[1..])
  }

  /** A callback runs once for each occurrence of it among the callbacks passed in. */
  lemma {:induction false} InvokeCount(cbs: seq<Option<Callback>>, c: Callback)
    ensures Count(Invoke(cbs), c) == Count(cbs, Some(c))
    ensures c in Invoke(cbs) <==> Some(c) in cbs
  {
    if cbs != [] {
      InvokeCount(cbs[1..], c);
      assert cbs == [cbs[0]] + cbs[1..];
      var head := if cbs[0].Some? then [cbs[0].value] else [];
      CountCons(cbs[0], cbs[1..], Some(c));
      CountConcat(head, Invoke(cbs[1..]), c);
    }
  }

  /** `clearImpl`: erase every entry whose countdown is zero, keeping the others in order. */
  function ClearImpl(q: Queue): (r: Queue)
    ensures |r| <= |q|
    ensures forall i :: 0 <= i < |r| ==> r[i].defer != 0
  {
    if q == [] then []
    else (if q[0].defer != 0 then [q[0]] else []) + ClearImpl(q[1..])
  }

  /** `clearImpl` keeps exactly the entries with a positive countdown, and changes nothing when none is zero. */
  lemma {:induction false} ClearImplSpec(q: Queue)
    ensures forall d :: d in ClearImpl(q) <==> d in q && d.defer != 0
    ensures (forall i :: 0 <= i < |q| ==> q[i].defer != 0) ==> ClearImpl(q) == q
  {
    if q != [] {
      ClearImplSpec(q[1..]);
      assert q == [q[0]] + q[1..];
      assert forall i :: 1 <= i < |q| ==> q[1..][i - 1] == q[i];
    }
  }

  /** `DeferQueue::decrement`: tick, run what is due, drop it, and return the remaining size. */
  function Decrement(q: Queue): (r: Outcome)
    ensures r.pending == |r.queue|
    ensures forall i :: 0 <= i < |r.queue| ==> r.queue[i].defer > 0
  {
    var pass := DecrementImpl(q);
    var kept := ClearImpl(pass.queue);
    Outcome(kept, Invoke(pass.due), |kept|)
  }

  /** The callbacks `decrementImpl` collects are exactly those of the entries due on this pass. */
  lemma {:induction false} DueSpec(q: Queue)
    ensures forall cb :: cb in DecrementImpl(q).due <==> exists i :: 0 <= i < |q| && q[i].defer <= 1 && q[i].callback == cb
  {
    if q != [] {
      DueSpec(q[1..]);
      assert forall i :: 1 <= i < |q| ==> q[1..][i - 1] == q[i];
    }
  }

  /**
   * After `decrement`, an entry that was not due is still queued with its
   * countdown lowered, and the callbacks run are exactly the non-empty
   * callbacks of the entries that were due.
   */
  lemma DecrementSpec(q: Queue)
    ensures forall i :: 0 <= i < |q| && q[i].defer > 1 ==> Tick(q[i]) in Decrement(q).queue
    ensures forall c :: c in Decrement(q).invoked <==> exists i :: 0 <= i < |q| && q[i].defer <= 1 && q[i].callback == Some(c)
  {
    var pass := DecrementImpl(q);
    DecrementImplTicks(q);
    assert forall i :: 0 <= i < |q| ==> pass.queue[i] in pass.queue;
    ClearImplSpec(pass.queue);
    DueSpec(q);
    forall c {
      InvokeCount(pass.due, c);
    }
  }

  /** `DeferQueue::flush`: run every non-empty callback whatever its countdown, then empty the queue. */
  function Flush(q: Queue): (r: Outcome)
    ensures r.queue == [] && r.pending == 0
  {
    Outcome([], Invoke(Callbacks(q)), 0)
  }

  /** `flush` runs each non-empty callback once per entry holding it, whatever the countdowns. */
  lemma FlushSpec(q: Queue, c: Callback)
    ensures c in Flush(q).invoked <==> exists i :: 0 <= i < |q| && q[i].callback == Some(c)
    ensures Count(Flush(q).invoked, c) == |Defers(q, c)|
  {
    InvokeCount(Callbacks(q), c);
    CallbacksDefers(q, c);
    var cbs := Callbacks(q);
    if Some(c) in cbs {
      var i :| 0 <= i < |cbs| && cbs[i] == Some(c);
      assert q[i].callback == Some(c);
    }
  }

  lemma {:induction false} CallbacksDefers(q: Queue, c: Callback)
    ensures Count(Callbacks(q), Some(c)) == |Defers(q, c)|
  {
    if q != [] {
      CallbacksDefers(q[1..], c);
      CountCons(q[0].callback, Callbacks(q[1..]), Some(c));
    }
  }

  /** The callbacks of the entries, in queue order. */
  function Callbacks(q: Queue): (r: seq<Option<Callback>>)
    ensures |r| == |q|
    ensures forall i :: 0 <= i < |q| ==> r[i] == q[i].callback
  {
    if q == [] then [] else [q[0].callback] + Callbacks(q[1..])
  }

  /** The countdowns of the entries holding callback `c`, in queue order. */
  function Defers(q: Queue, c: Callback): seq<nat> {
    if q == [] then []
    else (if q[0].callback == Some(c) then [q[0].defer] else []) + Defers(q[1..], c)
  }

  /** Each countdown lowered by one, never below zero. */
  function Lower(ds: seq<nat>): seq<nat> {
    if ds == [] then [] else [if ds[0] > 0 then ds[0] - 1 else 0] + Lower(ds[1..])
  }

  /** The countdowns that are still positive. */
  function Positive(ds: seq<nat>): seq<nat> {
    if ds == [] then [] else (if ds[0] > 0 then [ds[0]] else []) + Positive(ds[1..])
  }

  /** How many countdowns are due on the next pass (zero or one). */
  function DueCount(ds: seq<nat>): nat {
    if ds == [] then 0 else (if ds[0] <= 1 then 1 else 0) + DueCount(ds[1..])
  }

  lemma DefersCons(d: Deferred, q: Queue, c: Callback)
    ensures Defers([d] + q, c) == (if d.callback == Some(c) then [d.defer] else []) + Defers(q, c)
  {
    assert ([d] + q)[1..] == q;
  }

  lemma {:induction false} DecrementImplDefers(q: Queue, c: Callback)
    ensures Defers(DecrementImpl(q).queue, c) == Lower(Defers(q, c))
    ensures Count(DecrementImpl(q).due, Some(c)) == DueCount(Defers(q, c))
  {
    if q != [] {
      DecrementImplDefers(q[1..], c);
      var t := Tick(q[0]);
      var rest := DecrementImpl(q[1..]);
      DefersCons(t, rest.queue, c);
      var head := if t.defer == 0 then [t.callback] else [];
      CountConcat(head, rest.due, Some(c));
      var ds := Defers(q, c);
      if q[0].callback == Some(c) {
        assert ds == [q[0].defer] + Defers(q[1..], c);
        assert ds[1..] == Defers(q[1..], c);
      } else {
        assert ds == Defers(q[1..], c);
      }
    }
  }

  lemma {:induction false} ClearImplDefers(q: Queue, c: Callback)
    ensures Defers(ClearImpl(q), c) == Positive(Defers(q, c))
  {
    if q != [] {
      ClearImplDefers(q[1..], c);
      var ds := Defers(q, c);
      if q[0].callback == Some(c) {
        assert ds == [q[0].defer] + Defers(q[1..], c);
        assert ds[1..] == Defers(q[1..], c);
      } else {
        assert ds == Defers(q[1..], c);
      }
      if q[0].defer != 0 {
        DefersCons(q[0], ClearImpl(q[1..]), c);
      } else {
        assert ClearImpl(q) == ClearImpl(q[1..]);
      }
    }
  }

  /**
   * How `decrement` treats the entries holding one callback: their countdowns
   * are lowered, the ones that reach zero are dropped, and the callback runs
   * once for each entry that was due.
   */
  lemma DecrementDefers(q: Queue, c: Callback)
    ensures Defers(Decrement(q).queue, c) == Positive(Lower(Defers(q, c)))
    ensures Count(Decrement(q).invoked, c) == DueCount(Defers(q, c))
  {
    DecrementImplDefers(q, c);
    ClearImplDefers(DecrementImpl(q).queue, c);
    InvokeCount(DecrementImpl(q).due, c);
  }

  /** `decrement` acts on each entry independently: it distributes over concatenation. */
  lemma {:induction false} DecrementConcat(a: Queue, b: Queue)
    ensures Decrement(a + b).queue == Decrement(a).queue + Decrement(b).queue
    ensures Decrement(a + b).invoked == Decrement(a).invoked + Decrement(b).invoked
  {
    DecrementImplConcat(a, b);
    ClearImplConcat(DecrementImpl(a).queue, DecrementImpl(b).queue);
    InvokeConcat(DecrementImpl(a).due, DecrementImpl(b).due);
  }

  lemma {:induction false} DecrementImplConcat(a: Queue, b: Queue)
    ensures DecrementImpl(a + b) == Pass(DecrementImpl(a).queue + DecrementImpl(b).queue, DecrementImpl(a).due + DecrementImpl(b).due)
  {
    if a == [] {
      assert a + b == b;
    } else {
      assert (a + b)[1..] == a[1..] + b;
      DecrementImplConcat(a[1..], b);
      var t := Tick(a[0]);
      var head := if t.defer == 0 then [t.callback] else [];
      var ra, rb := DecrementImpl(a[1..]), DecrementImpl(b);
      assert DecrementImpl(a) == Pass([t] + ra.queue, head + ra.due);
      assert DecrementImpl(a + b) == Pass([t] + (ra.queue + rb.queue), head + (ra.due + rb.due));
      assert [t] + (ra.queue + rb.queue) == ([t] + ra.queue) + rb.queue;
      assert head + (ra.due + rb.due) == (head + ra.due) + rb.due;
    }
  }

  lemma {:induction false} ClearImplConcat(a: Queue, b: Queue)
    ensures ClearImpl(a + b) == ClearImpl(a) + ClearImpl(b)
  {
    if a == [] {
      assert a + b == b;
    } else {
      assert (a + b)[1..] == a[1..] + b;
      ClearImplConcat(a[1..], b);
      var head := if a[0].defer != 0 then [a[0]] else [];
      assert ClearImpl(a + b) == head + (ClearImpl(a[1..]) + ClearImpl(b));
      assert head + (ClearImpl(a[1..]) + ClearImpl(b)) == (head + ClearImpl(a[1..])) + ClearImpl(b);
    }
  }

  lemma {:induction false} InvokeConcat(a: seq<Option<Callback>>, b: seq<Option<Callback>>)
    ensures Invoke(a + b) == Invoke(a) + Invoke(b)
  {
    if a == [] {
      assert a + b == b;
    } else {
      assert (a + b)[1..] == a[1..] + b;
      InvokeConcat(a[1..], b);
      var head := if a[0].Some? then [a[0].value] else [];
      assert Invoke(a + b) == head + (Invoke(a[1..]) + Invoke(b));
      assert head + (Invoke(a[1..]) + Invoke(b)) == (head + Invoke(a[1..])) + Invoke(b);
    }
  }

  /** The queue after `k` calls to `decrement`. */
  function After(q: Queue, k: nat): Queue
    decreases k
  {
    if k == 0 then q else After(Decrement(q).queue, k - 1)
  }

  /** The callbacks run by the `k`-th call to `decrement` (counting from 1). */
  function InvokedOn(q: Queue, k: nat): seq<Callback>
    requires k >= 1
  {
    Decrement(After(q, k - 1)).invoked
  }

  lemma {:induction false} AfterSingle(q: Queue, c: Callback, n: nat, j: nat)
    requires n >= 1
    requires Defers(q, c) == [n]
    requires j <= n
    ensures Defers(After(q, j), c) == if j < n then [n - j] else []
    decreases j
  {
    if j > 0 {
      var i: nat := j - 1;
      var d: nat := n - i;
      AfterSingle(q, c, n, i);
      AfterStep(q, c, j, i, d);
      Single(d);
    }
  }

  /** One more `decrement` lowers a single countdown `d` after `i` calls. */
  lemma AfterStep(q: Queue, c: Callback, j: nat, i: nat, d: nat)
    requires j >= 1 && i == j - 1 && Defers(After(q, i), c) == [d]
    ensures Defers(After(q, j), c) == Positive(Lower([d]))
  {
    AfterShift(q, j);
    DecrementDefers(After(q, i), c);
  }

  /** The countdown sequences of a single entry. */
  lemma Single(d: nat)
    ensures Positive(Lower([d])) == if d > 1 then [d - 1] else []
    ensures DueCount([d]) == if d <= 1 then 1 else 0
  {
    assert [d][1..] == [];
    var l := if d > 0 then d - 1 else 0;
    assert Lower([d]) == [l] + Lower([]);
    assert [l][1..] == [];
  }

  lemma {:induction false} AfterShift(q: Queue, k: nat)
    requires k >= 1
    ensures After(q, k) == Decrement(After(q, k - 1)).queue
    decreases k
  {
    if k > 1 {
      AfterShift(Decrement(q).queue, k - 1);
    }
  }

  lemma {:induction false} AfterEmpty(q: Queue, c: Callback, j: nat)
    requires Defers(q, c) == []
    ensures Defers(After(q, j), c) == []
    decreases j
  {
    if j > 0 {
      DecrementDefers(q, c);
      AfterEmpty(Decrement(q).queue, c, j - 1);
    }
  }

  /**
   * An entry queued with countdown `n >= 1`, whose callback no other entry
   * holds, runs exactly once, on the `n`-th `decrement`, and never on any
   * other.
   */
  lemma FiresOnNthDecrement(q: Queue, c: Callback, n: nat, k: nat)
    requires n >= 1
    requires Defers(q, c) == [n]
    requires k >= 1
    ensures Count(InvokedOn(q, k), c) == if k == n then 1 else 0
  {
    if k <= n {
      FiresUpToN(q, c, n, k);
    } else {
      SilentAfterN(q, c, n, k);
    }
  }

  lemma FiresUpToN(q: Queue, c: Callback, n: nat, k: nat)
    requires n >= 1
    requires Defers(q, c) == [n]
    requires 1 <= k <= n
    ensures Count(InvokedOn(q, k), c) == if k == n then 1 else 0
  {
    var p := After(q, k - 1);
    var d := n - (k - 1);
    assert Defers(p, c) == [d] by {
      AfterSingle(q, c, n, k - 1);
    }
    assert Count(Decrement(p).invoked, c) == DueCount([d]) by {
      DecrementDefers(p, c);
    }
    assert DueCount([d]) == if k == n then 1 else 0 by {
      Single(d);
    }
    assert InvokedOn(q, k) == Decrement(p).invoked;
  }

  lemma SilentAfterN(q: Queue, c: Callback, n: nat, k: nat)
    requires n >= 1
    requires Defers(q, c) == [n]
    requires k > n
    ensures Count(InvokedOn(q, k), c) == 0
  {
    var m := k - 1 - n;
    var p := After(q, k - 1);
    assert Defers(After(q, n), c) == [] by {
      AfterSingle(q, c, n, n);
    }
    assert p == After(After(q, n), m) by {
      AfterSplit(q, n, m);
    }
    assert Defers(p, c) == [] by {
      AfterEmpty(After(q, n), c, m);
    }
    assert Count(Decrement(p).invoked, c) == DueCount([]) by {
      DecrementDefers(p, c);
    }
  }

  lemma {:induction false} AfterSplit(q: Queue, a: nat, b: nat)
    ensures After(q, a + b) == After(After(q, a), b)
    decreases a
  {
    if a > 0 {
      AfterSplit(Decrement(q).queue, a - 1, b);
    }
  }

  /** An entry queued with countdown 0 runs on the first `decrement` and is then gone. */
  lemma ZeroFiresFirst(q: Queue, c: Callback)
    requires Defers(q, c) == [0]
    ensures Count(Decrement(q).invoked, c) == 1
    ensures Defers(Decrement(q).queue, c) == []
  {
    DecrementDefers(q, c);
  }
}
