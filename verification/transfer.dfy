/**
 * The transfer engine of the newer renderer (levk/graphics/src/device/transfer.cpp):
 * pools of staging buffers, command buffers and fences, the batch being filled
 * (`active`) and the batches submitted to the GPU. Buffers, command buffers,
 * fences and promises are opaque ids; new ones take the next value of
 * `serial`. Whether a fence has signalled is passed in as the set of
 * signalled fences.
 */
module Transfer {
  import opened Wrappers

  /** `2^63`: `ceilPOT` only terminates for sizes up to this bound. */
  const MaxStagingSize: nat := 0x8000_0000_0000_0000

  type Command = nat
  type Fence = nat
  type Promise = nat

  /** A staging buffer and the number of bytes it can hold (`writeSize()`). */
  datatype Buffer = Buffer(id: nat, writeSize: nat)

  /** A `Stage`: an optional staging buffer and the command buffer recording into it. */
  datatype Stage = Stage(buffer: Option<Buffer>, command: Command)

  /** One `(stage, promise)` entry of a batch. */
  datatype Entry = Entry(stage: Stage, promise: Promise)

  /** A batch: its entries, the fence it was submitted with and the frames to wait after it signals. */
  datatype Batch = Batch(entries: seq<Entry>, done: Fence, framePad: nat)

  /** The free lists `m_data.buffers`, `m_data.commands` and `m_data.fences`. */
  datatype Pools = Pools(buffers: seq<Buffer>, commands: seq<Command>, fences: seq<Fence>)

  /**
   * The engine's state. `defaultPad` is the `framePad` of a value-initialised
   * `Batch`; the header that fixes it is not part of this model.
   */
  datatype Transfer = Transfer(pools: Pools, active: Batch, submitted: seq<Batch>, serial: nat, defaultPad: nat)

  // ---------------------------------------------------------------- ceilPOT

  function Pow2(k: nat): (r: nat)
    ensures r >= 1
  {
    if k == 0 then 1 else 2 * Pow2(k - 1)
  }

  ghost predicate IsPow2(x: nat) {
    exists k: nat :: x == Pow2(k)
  }

  /** The loop of `ceilPOT`, starting from `ret`: double until `ret >= size`. */
  function CeilFrom(ret: nat, size: nat): (r: nat)
    requires ret >= 1
    ensures r >= ret && r >= size
    decreases size - ret
  {
    if ret >= size then ret else CeilFrom(2 * ret, size)
  }

  /** `ceilPOT(size)`: start at 2 and double while below `size`. */
  function CeilPOT(size: nat): (r: nat)
    requires size <= MaxStagingSize
    ensures r >= 2 && r >= size
  {
    CeilFrom(2, size)
  }

  lemma {:induction false} Pow2Monotone(a: nat, b: nat)
    requires a <= b
    ensures Pow2(a) <= Pow2(b)
    decreases b
  {
    if a < b {
      Pow2Monotone(a, b - 1);
    }
  }

  lemma {:induction false} Pow2Add(a: nat, b: nat)
    ensures Pow2(a + b) == Pow2(a) * Pow2(b)
    decreases a
  {
    if a > 0 {
      Pow2Add(a - 1, b);
    }
  }

  lemma Pow2Of63()
    ensures Pow2(63) == MaxStagingSize
  {
    Pow2Add(31, 32);
    Pow2Of31();
    Pow2Of32();
  }

  lemma Pow2Of16()
    ensures Pow2(16) == 0x1_0000
  {
    Pow2Add(8, 8);
  }

  lemma Pow2Of31()
    ensures Pow2(31) == 0x8000_0000
  {
    Pow2Add(15, 16);
    Pow2Of16();
    Pow2Add(7, 8);
  }

  lemma Pow2Of32()
    ensures Pow2(32) == 0x1_0000_0000
  {
    Pow2Add(16, 16);
    Pow2Of16();
  }

  lemma {:induction false} CeilFromSpec(k: nat, size: nat)
    requires k >= 1
    requires size <= MaxStagingSize
    requires Pow2(k) <= MaxStagingSize
    requires Pow2(k) == 2 || Pow2(k) / 2 < size
    ensures exists j: nat :: j >= k && CeilFrom(Pow2(k), size) == Pow2(j)
    ensures CeilFrom(Pow2(k), size) >= size
    ensures CeilFrom(Pow2(k), size) <= MaxStagingSize
    ensures CeilFrom(Pow2(k), size) == 2 || CeilFrom(Pow2(k), size) / 2 < size
    decreases size - Pow2(k)
  {
    if Pow2(k) < size {
      Pow2Of63();
      if k >= 63 {
        Pow2Monotone(63, k);
        assert false;
      }
      Pow2Monotone(k + 1, 63);
      CeilFromSpec(k + 1, size);
    }
  }

  /**
   * `ceilPOT` yields a power of two that is at least `size`, at least 2 and at
   * most `2^63`, and halving it would drop below `size` unless it is 2: the
   * smallest such power of two.
   */
  lemma CeilPOTSpec(size: nat)
    requires size <= MaxStagingSize
    ensures IsPow2(CeilPOT(size))
    ensures CeilPOT(size) >= size && CeilPOT(size) >= 2
    ensures CeilPOT(size) <= MaxStagingSize
    ensures CeilPOT(size) == 2 || CeilPOT(size) / 2 < size
  {
    Pow2Of63();
    Pow2Monotone(1, 63);
    CeilFromSpec(1, size);
    var j: nat :| j >= 1 && CeilPOT(size) == Pow2(j);
    Pow2Monotone(1, j);
  }

  /** No power of two at least 2 and at least `size` is smaller than `ceilPOT(size)`. */
  lemma CeilPOTMinimal(size: nat, p: nat)
    requires size <= MaxStagingSize
    requires IsPow2(p) && p >= 2 && p >= size
    ensures CeilPOT(size) <= p
  {
    CeilPOTSpec(size);
    var r := CeilPOT(size);
    var i: nat :| r == Pow2(i);
    var j: nat :| p == Pow2(j);
    if i <= j {
      Pow2Monotone(i, j);
    } else {
      Pow2Monotone(j + 1, i);
      assert false;
    }
  }

  // ---------------------------------------------------------------- pools

  /** `makeStagingBuffer(size)`: a new buffer of `ceilPOT(size)` bytes. */
  function MakeStagingBuffer(t: Transfer, size: nat): (r: (Buffer, Transfer))
    requires size <= MaxStagingSize
    ensures r.0.writeSize >= size && r.0.id == t.serial
    ensures IsPow2(r.0.writeSize) && r.0.writeSize >= 2 && (r.0.writeSize == 2 || r.0.writeSize / 2 < size)
    ensures r.1 == t.(serial := t.serial + 1)
  {
    CeilPOTSpec(size);
    (Buffer(t.serial, CeilPOT(size)), t.(serial := t.serial + 1))
  }

  /**
   * `nextBuffer(size)`: nothing for size 0; otherwise the first pooled buffer
   * that can hold `size` bytes, taken out of the pool, or else a new staging
   * buffer, leaving the pool as it was.
   */
  method NextBuffer(t: Transfer, size: nat) returns (r: Option<Buffer>, t': Transfer)
    requires size <= MaxStagingSize
    ensures size == 0 ==> r == None && t' == t
    ensures size > 0 ==> r.Some? && r.value.writeSize >= size
    ensures size > 0 && (exists i :: 0 <= i < |t.pools.buffers| && t.pools.buffers[i].writeSize >= size) ==>
      exists i :: 0 <= i < |t.pools.buffers| && r == Some(t.pools.buffers[i])
        && (forall j :: 0 <= j < i ==> t.pools.buffers[j].writeSize < size)
        && t' == t.(pools := t.pools.(buffers := t.pools.buffers[..i] + t.pools.buffers[i + 1..]))
    ensures size > 0 && (forall i :: 0 <= i < |t.pools.buffers| ==> t.pools.buffers[i].writeSize < size) ==>
      r == Some(MakeStagingBuffer(t, size).0) && t' == MakeStagingBuffer(t, size).1
    ensures Fresh(t) ==> Fresh(t') && (r.Some? ==> r.value.id < t'.serial)
  {
    if size == 0 {
      return None, t;
    }
    var bs := t.pools.buffers;
    var i := 0;
    while i < |bs|
      invariant 0 <= i <= |bs|
      invariant forall j :: 0 <= j < i ==> bs[j].writeSize < size
    {
      if bs[i].writeSize >= size {
        return Some(bs[i]), t.(pools := t.pools.(buffers := bs[..i] + bs[i + 1..]));
      }
      i := i + 1;
    }
    var made := MakeStagingBuffer(t, size);
    return Some(made.0), made.1;
  }

  /** `nextCommand`: reuse the most recently returned command buffer, else allocate one. */
  function NextCommand(t: Transfer): (r: (Command, Transfer))
    ensures |t.pools.commands| > 0 ==>
      r.0 == t.pools.commands[|t.pools.commands| - 1]
      && r.1 == t.(pools := t.pools.(commands := t.pools.commands[..|t.pools.commands| - 1]))
    ensures |t.pools.commands| == 0 ==> r.0 == t.serial && r.1 == t.(serial := t.serial + 1)
  {
    var cs := t.pools.commands;
    if |cs| > 0 then (cs[|cs| - 1], t.(pools := t.pools.(commands := cs[..|cs| - 1])))
    else (t.serial, t.(serial := t.serial + 1))
  }

  /** `nextFence`: reuse the most recently returned fence, else make one. */
  function NextFence(t: Transfer): (r: (Fence, Transfer))
    ensures |t.pools.fences| > 0 ==>
      r.0 == t.pools.fences[|t.pools.fences| - 1]
      && r.1 == t.(pools := t.pools.(fences := t.pools.fences[..|t.pools.fences| - 1]))
    ensures |t.pools.fences| == 0 ==> r.0 == t.serial && r.1 == t.(serial := t.serial + 1)
  {
    var fs := t.pools.fences;
    if |fs| > 0 then (fs[|fs| - 1], t.(pools := t.pools.(fences := fs[..|fs| - 1])))
    else (t.serial, t.(serial := t.serial + 1))
  }

  /** `newStage(size)`: a buffer from `nextBuffer` and a command buffer from `nextCommand`. */
  method NewStage(t: Transfer, size: nat) returns (s: Stage, t': Transfer)
    requires size <= MaxStagingSize
    ensures size == 0 <==> s.buffer == None
    ensures s.buffer.Some? ==> s.buffer.value.writeSize >= size
    ensures t'.active == t.active && t'.submitted == t.submitted
    ensures Fresh(t) ==> Fresh(t') && StageBelow(s, t'.serial)
  {
    var b, t1 := NextBuffer(t, size);
    var c := NextCommand(t1);
    if Fresh(t) {
      NextCommandFresh(t1);
    }
    s, t' := Stage(b, c.0), c.1;
  }

  /** `addStage`: append one entry to the active batch; nothing else changes. */
  function AddStage(t: Transfer, s: Stage, p: Promise): (r: Transfer)
    ensures r.active.entries == t.active.entries + [Entry(s, p)]
    ensures r.active.done == t.active.done && r.active.framePad == t.active.framePad
    ensures r.pools == t.pools && r.submitted == t.submitted && r.serial == t.serial
  {
    t.(active := t.active.(entries := t.active.entries + [Entry(s, p)]))
  }

  // ---------------------------------------------------------------- fresh ids

  /** The stage's command buffer and staging buffer have ids below `n`. */
  predicate StageBelow(s: Stage, n: nat) {
    s.command < n && (s.buffer.Some? ==> s.buffer.value.id < n)
  }

  predicate EntriesBelow(es: seq<Entry>, n: nat) {
    forall i :: 0 <= i < |es| ==> StageBelow(es[i].stage, n)
  }

  predicate BatchesBelow(bs: seq<Batch>, n: nat) {
    forall i :: 0 <= i < |bs| ==> bs[i].done < n && EntriesBelow(bs[i].entries, n)
  }

  predicate PoolsBelow(p: Pools, n: nat) {
    (forall i :: 0 <= i < |p.buffers| ==> p.buffers[i].id < n)
    && (forall i :: 0 <= i < |p.commands| ==> p.commands[i] < n)
    && (forall i :: 0 <= i < |p.fences| ==> p.fences[i] < n)
  }

  /**
   * Every id the engine holds, pooled, in the active batch or in flight, was
   * handed out before `serial`: an id made from `serial` is new.
   */
  predicate Fresh(t: Transfer) {
    PoolsBelow(t.pools, t.serial) && EntriesBelow(t.active.entries, t.serial) && BatchesBelow(t.submitted, t.serial)
  }

  /** `nextCommand` keeps the engine fresh and hands out an id below the new serial. */
  lemma NextCommandFresh(t: Transfer)
    requires Fresh(t)
    ensures Fresh(NextCommand(t).1) && NextCommand(t).0 < NextCommand(t).1.serial
  {
    var cs := t.pools.commands;
    if |cs| > 0 {
      assert forall i :: 0 <= i < |cs| - 1 ==> cs[..|cs| - 1][i] == cs[i];
    }
  }

  /** `nextFence` keeps the engine fresh and hands out an id below the new serial. */
  lemma NextFenceFresh(t: Transfer)
    requires Fresh(t)
    ensures Fresh(NextFence(t).1) && NextFence(t).0 < NextFence(t).1.serial
  {
    var fs := t.pools.fences;
    if |fs| > 0 {
      assert forall i :: 0 <= i < |fs| - 1 ==> fs[..|fs| - 1][i] == fs[i];
    }
  }

  /** With an empty pool, `nextCommand` makes a command buffer no stage holds. */
  lemma NextCommandIsNew(t: Transfer)
    requires Fresh(t) && t.pools.commands == []
    ensures forall i :: 0 <= i < |t.active.entries| ==> NextCommand(t).0 != t.active.entries[i].stage.command
    ensures forall i, j :: 0 <= i < |t.submitted| && 0 <= j < |t.submitted[i].entries| ==>
              NextCommand(t).0 != t.submitted[i].entries[j].stage.command
  {
  }

  /** With an empty pool, `nextFence` makes a fence no submitted batch waits on. */
  lemma NextFenceIsNew(t: Transfer)
    requires Fresh(t) && t.pools.fences == []
    ensures forall i :: 0 <= i < |t.submitted| ==> NextFence(t).0 != t.submitted[i].done
  {
  }

  /** `addStage` of a stage made by `newStage` keeps the engine fresh. */
  lemma AddStageFresh(t: Transfer, s: Stage, p: Promise)
    requires Fresh(t) && StageBelow(s, t.serial)
    ensures Fresh(AddStage(t, s, p))
  {
    var es := t.active.entries + [Entry(s, p)];
    assert forall i :: 0 <= i < |t.active.entries| ==> es[i] == t.active.entries[i];
  }

  lemma {:induction false} ScavengeAllFresh(p: Pools, es: seq<Entry>, fence: Fence, n: nat)
    requires PoolsBelow(p, n) && EntriesBelow(es, n) && fence < n
    ensures PoolsBelow(ScavengeAll(p, es, fence), n)
    decreases |es|
  {
    if es != [] {
      var p1 := Scavenge(p, es[0].stage, fence);
      assert PoolsBelow(p1, n) by {
        assert forall i :: 0 <= i < |p.buffers| ==> p1.buffers[i] == p.buffers[i];
        assert forall i :: 0 <= i < |p.commands| ==> p1.commands[i] == p.commands[i];
        assert forall i :: 0 <= i < |p1.fences| ==> p1.fences[i] in p.fences || p1.fences[i] == fence;
      }
      assert EntriesBelow(es[1..], n) by {
        assert forall i :: 0 <= i < |es| - 1 ==> es[1..][i] == es[i + 1];
      }
      ScavengeAllFresh(p1, es[1..], fence, n);
    }
  }

  lemma {:induction false} SweepFresh(p: Pools, bs: seq<Batch>, signalled: set<Fence>, n: nat)
    requires PoolsBelow(p, n) && BatchesBelow(bs, n)
    ensures PoolsBelow(SweepBatches(p, bs, signalled).pools, n)
    ensures BatchesBelow(SweepBatches(p, bs, signalled).kept, n)
    decreases |bs|
  {
    if bs != [] {
      var b := bs[0];
      assert b.done < n && EntriesBelow(b.entries, n);
      assert BatchesBelow(bs[1..], n) by {
        assert forall i :: 0 <= i < |bs| - 1 ==> bs[1..][i] == bs[i + 1];
      }
      if Retires(b, signalled) {
        ScavengeAllFresh(p, b.entries, b.done, n);
        SweepFresh(ScavengeAll(p, b.entries, b.done), bs[1..], signalled, n);
      } else {
        SweepFresh(p, bs[1..], signalled, n);
        var b' := if b.done in signalled then b.(framePad := b.framePad - 1) else b;
        var kept := SweepBatches(p, bs[1..], signalled).kept;
        assert SweepBatches(p, bs, signalled).kept == [b'] + kept;
        assert forall i :: 1 <= i < |kept| + 1 ==> ([b'] + kept)[i] == kept[i - 1];
      }
    }
  }

  /** `update` keeps the engine fresh: retired ids go back to the pools, and the submitted fence comes from `nextFence`. */
  lemma UpdateFresh(t: Transfer, signalled: set<Fence>)
    requires Fresh(t)
    ensures Fresh(Update(t, signalled).transfer)
  {
    SweepFresh(t.pools, t.submitted, signalled, t.serial);
    var sw := SweepBatches(t.pools, t.submitted, signalled);
    var t1 := t.(pools := sw.pools, submitted := sw.kept);
    if t.active.entries != [] {
      NextFenceFresh(t1);
      var f := NextFence(t1);
      var subs := f.1.submitted + [t.active.(done := f.0)];
      assert forall i :: 0 <= i < |f.1.submitted| ==> subs[i] == f.1.submitted[i];
    }
  }

  // ---------------------------------------------------------------- scavenge

  predicate NoDup<T(==)>(s: seq<T>) {
    forall i, j :: 0 <= i < j < |s| ==> s[i] != s[j]
  }

  /**
   * `scavenge(stage, fence)`: return the command buffer and any staging buffer
   * to their pools, and the fence too unless it is already pooled.
   */
  function Scavenge(p: Pools, s: Stage, fence: Fence): (r: Pools)
    ensures r.commands == p.commands + [s.command]
    ensures r.buffers == p.buffers + (if s.buffer.Some? then [s.buffer.value] else [])
    ensures fence in r.fences
    ensures NoDup(p.fences) ==> NoDup(r.fences)
    ensures forall f :: f in r.fences <==> f in p.fences || f == fence
  {
    var fences := if fence in p.fences then p.fences else p.fences + [fence];
    Pools(p.buffers + (if s.buffer.Some? then [s.buffer.value] else []), p.commands + [s.command], fences)
  }

  /**
   * The pools are last-in first-out: after scavenging a stage, `nextCommand`
   * hands its command buffer back, and `nextFence` the fence when it was not
   * pooled already, leaving those pools as they were.
   */
  lemma ScavengeThenNext(t: Transfer, s: Stage, fence: Fence)
    ensures var t1 := t.(pools := Scavenge(t.pools, s, fence));
            NextCommand(t1).0 == s.command && NextCommand(t1).1.pools.commands == t.pools.commands
            && NextCommand(t1).1.serial == t.serial
    ensures var t1 := t.(pools := Scavenge(t.pools, s, fence));
            fence !in t.pools.fences ==>
              NextFence(t1).0 == fence && NextFence(t1).1.pools.fences == t.pools.fences
              && NextFence(t1).1.serial == t.serial
  {
    var t1 := t.(pools := Scavenge(t.pools, s, fence));
    assert t1.pools.commands[..|t1.pools.commands| - 1] == t.pools.commands;
    if fence !in t.pools.fences {
      assert t1.pools.fences[..|t1.pools.fences| - 1] == t.pools.fences;
    }
  }

  /** Scavenge every stage of a retiring batch, in order, with the batch's fence. */
  function ScavengeAll(p: Pools, es: seq<Entry>, fence: Fence): (r: Pools)
    ensures |r.commands| == |p.commands| + |es| && r.commands[..|p.commands|] == p.commands
    ensures |r.buffers| >= |p.buffers| && r.buffers[..|p.buffers|] == p.buffers
    ensures forall f :: f in r.fences <==> f in p.fences || (es != [] && f == fence)
    decreases |es|
  {
    if es == [] then p else ScavengeAll(Scavenge(p, es[0].stage, fence), es[1..], fence)
  }

  /** What sweeping the submitted batches leaves: the pools, the batches kept, and the promises resolved. */
  datatype Sweep = Sweep(pools: Pools, kept: seq<Batch>, resolved: seq<Promise>)

  /** Whether `update` removes `b`: its fence has signalled and no frame padding remains. */
  predicate Retires(b: Batch, signalled: set<Fence>) {
    b.done in signalled && b.framePad == 0
  }

  /**
   * The `removeDone` pass over the submitted batches, in order: a signalled
   * batch with no padding left resolves its promises, is scavenged and
   * dropped; a signalled batch with padding has it decremented; the rest stay.
   */
  function SweepBatches(p: Pools, bs: seq<Batch>, signalled: set<Fence>): (r: Sweep)
    ensures |r.kept| <= |bs|
    ensures |r.pools.commands| >= |p.commands| && r.pools.commands[..|p.commands|] == p.commands
    ensures forall f :: f in p.fences ==> f in r.pools.fences
    decreases |bs|
  {
    if bs == [] then Sweep(p, [], [])
    else
      var b := bs[0];
      if b.done in signalled && b.framePad == 0 then
        var rest := SweepBatches(ScavengeAll(p, b.entries, b.done), bs[1..], signalled);
        Sweep(rest.pools, rest.kept, Promises(b.entries) + rest.resolved)
      else
        var b' := if b.done in signalled then b.(framePad := b.framePad - 1) else b;
        var rest := SweepBatches(p, bs[1..], signalled);
        Sweep(rest.pools, [b'] + rest.kept, rest.resolved)
  }

  function Promises(es: seq<Entry>): (r: seq<Promise>)
    ensures |r| == |es|
    ensures forall i :: 0 <= i < |es| ==> r[i] == es[i].promise
  {
    if es == [] then [] else [es[0].promise] + Promises(es[1..])
  }

  function Commands(es: seq<Entry>): (r: seq<Command>)
    ensures |r| == |es|
    ensures forall i :: 0 <= i < |es| ==> r[i] == es[i].stage.command
  {
    if es == [] then [] else [es[0].stage.command] + Commands(es[1..])
  }

  /** The entries of the batches that retire, in order: a reference definition for the sweep. */
  function RetiredEntries(bs: seq<Batch>, signalled: set<Fence>): seq<Entry> {
    if bs == [] then []
    else (if Retires(bs[0], signalled) then bs[0].entries else []) + RetiredEntries(bs[1..], signalled)
  }

  /** The outcome of `update`: the new state, the promises resolved, and the returned submitted count. */
  datatype Updated = Updated(transfer: Transfer, resolved: seq<Promise>, count: nat)

  /**
   * `update`: sweep the submitted batches, then submit a non-empty active batch
   * with a fence from `nextFence`, and start a new empty active batch.
   */
  function Update(t: Transfer, signalled: set<Fence>): (r: Updated)
    ensures r.count == |r.transfer.submitted|
    ensures r.transfer.active == Batch([], 0, t.defaultPad)
    ensures r.transfer.defaultPad == t.defaultPad
  {
    var sw := SweepBatches(t.pools, t.submitted, signalled);
    var t1 := t.(pools := sw.pools, submitted := sw.kept);
    var t2 :=
      if t.active.entries != [] then
        var f := NextFence(t1);
        f.1.(submitted := f.1.submitted + [t.active.(done := f.0)])
      else t1;
    var t3 := t2.(active := Batch([], 0, t.defaultPad));
    Updated(t3, sw.resolved, |t3.submitted|)
  }

  // ---------------------------------------------------------------- lemmas

  lemma {:induction false} ScavengeAllCommands(p: Pools, es: seq<Entry>, fence: Fence)
    ensures ScavengeAll(p, es, fence).commands == p.commands + Commands(es)
    ensures NoDup(p.fences) ==> NoDup(ScavengeAll(p, es, fence).fences)
    decreases |es|
  {
    if es != [] {
      var p1 := Scavenge(p, es[0].stage, fence);
      ScavengeAllCommands(p1, es[1..], fence);
      assert ScavengeAll(p, es, fence) == ScavengeAll(p1, es[1..], fence);
      assert Commands(es) == [es[0].stage.command] + Commands(es[1..]);
      assert p1.commands == p.commands + [es[0].stage.command];
      assert p1.commands + Commands(es[1..]) == p.commands + Commands(es);
    }
  }

  /** The sweep resolves exactly the promises of the retiring batches, in order. */
  lemma {:induction false} SweepResolves(p: Pools, bs: seq<Batch>, signalled: set<Fence>)
    ensures SweepBatches(p, bs, signalled).resolved == Promises(RetiredEntries(bs, signalled))
    decreases |bs|
  {
    if bs != [] {
      var b := bs[0];
      var tail := RetiredEntries(bs[1..], signalled);
      if Retires(b, signalled) {
        SweepResolves(ScavengeAll(p, b.entries, b.done), bs[1..], signalled);
        PromisesConcat(b.entries, tail);
      } else {
        SweepResolves(p, bs[1..], signalled);
      }
    }
  }

  /** The sweep returns exactly the command buffers of the retiring batches to the pool. */
  lemma {:induction false} SweepReturnsCommands(p: Pools, bs: seq<Batch>, signalled: set<Fence>)
    ensures SweepBatches(p, bs, signalled).pools.commands == p.commands + Commands(RetiredEntries(bs, signalled))
    decreases |bs|
  {
    if bs != [] {
      var b := bs[0];
      var tail := RetiredEntries(bs[1..], signalled);
      if Retires(b, signalled) {
        var p1 := ScavengeAll(p, b.entries, b.done);
        var rest := SweepBatches(p1, bs[1..], signalled);
        assert SweepBatches(p, bs, signalled).pools == rest.pools;
        assert RetiredEntries(bs, signalled) == b.entries + tail;
        assert p1.commands == p.commands + Commands(b.entries) by {
          ScavengeAllCommands(p, b.entries, b.done);
        }
        assert rest.pools.commands == p1.commands + Commands(tail) by {
          SweepReturnsCommands(p1, bs[1..], signalled);
        }
        assert Commands(b.entries + tail) == Commands(b.entries) + Commands(tail) by {
          CommandsConcat(b.entries, tail);
        }
      } else {
        assert SweepBatches(p, bs, signalled).pools == SweepBatches(p, bs[1..], signalled).pools;
        assert RetiredEntries(bs, signalled) == tail;
        SweepReturnsCommands(p, bs[1..], signalled);
      }
    }
  }

  /** The sweep never puts a fence into the free list twice. */
  lemma {:induction false} SweepFencesDistinct(p: Pools, bs: seq<Batch>, signalled: set<Fence>)
    requires NoDup(p.fences)
    ensures NoDup(SweepBatches(p, bs, signalled).pools.fences)
    decreases |bs|
  {
    if bs != [] {
      var b := bs[0];
      if Retires(b, signalled) {
        ScavengeAllCommands(p, b.entries, b.done);
        SweepFencesDistinct(ScavengeAll(p, b.entries, b.done), bs[1..], signalled);
      } else {
        SweepFencesDistinct(p, bs[1..], signalled);
      }
    }
  }

  lemma {:induction false} PromisesConcat(a: seq<Entry>, b: seq<Entry>)
    ensures Promises(a + b) == Promises(a) + Promises(b)
  {
    assert |Promises(a + b)| == |Promises(a) + Promises(b)|;
    forall i | 0 <= i < |a + b|
      ensures Promises(a + b)[i] == (Promises(a) + Promises(b))[i]
    {
      if i < |a| {
        assert (a + b)[i] == a[i];
      } else {
        assert (a + b)[i] == b[i - |a|];
      }
    }
  }

  lemma {:induction false} CommandsConcat(a: seq<Entry>, b: seq<Entry>)
    ensures Commands(a + b) == Commands(a) + Commands(b)
  {
    assert |Commands(a + b)| == |Commands(a) + Commands(b)|;
    forall i | 0 <= i < |a + b|
      ensures Commands(a + b)[i] == (Commands(a) + Commands(b))[i]
    {
      if i < |a| {
        assert (a + b)[i] == a[i];
      } else {
        assert (a + b)[i] == b[i - |a|];
      }
    }
  }

  /**
   * How the sweep treats each submitted batch: an unsignalled one is kept as
   * it is, a signalled one with padding is kept with one frame less, and the
   * kept batches are exactly those that do not retire.
   */
  lemma {:induction false} SweepKeeps(p: Pools, bs: seq<Batch>, signalled: set<Fence>)
    ensures forall b :: b in bs && b.done !in signalled ==> b in SweepBatches(p, bs, signalled).kept
    ensures forall b :: b in bs && b.done in signalled && b.framePad > 0 ==>
      b.(framePad := b.framePad - 1) in SweepBatches(p, bs, signalled).kept
    ensures |SweepBatches(p, bs, signalled).kept| == |bs| - Retiring(bs, signalled)
    decreases |bs|
  {
    if bs != [] {
      var b := bs[0];
      if Retires(b, signalled) {
        SweepKeeps(ScavengeAll(p, b.entries, b.done), bs[1..], signalled);
      } else {
        SweepKeeps(p, bs[1..], signalled);
      }
      assert forall x :: x in bs ==> x == b || x in bs[1..];
    }
  }

  /** How many of the batches retire. */
  function Retiring(bs: seq<Batch>, signalled: set<Fence>): (n: nat)
    ensures n <= |bs|
  {
    if bs == [] then 0 else (if Retires(bs[0], signalled) then 1 else 0) + Retiring(bs[1..], signalled)
  }

  /**
   * `update` resolves the promises of the retiring batches, and only those;
   * a non-empty active batch is appended to the submitted list with a fence
   * from the pool; an empty one submits nothing.
   */
  lemma UpdateSpec(t: Transfer, signalled: set<Fence>)
    ensures Update(t, signalled).resolved == Promises(RetiredEntries(t.submitted, signalled))
    ensures t.active.entries == [] ==>
      |Update(t, signalled).transfer.submitted| == |t.submitted| - Retiring(t.submitted, signalled)
    ensures t.active.entries != [] ==>
      |Update(t, signalled).transfer.submitted| == |t.submitted| - Retiring(t.submitted, signalled) + 1
      && Update(t, signalled).transfer.submitted[|Update(t, signalled).transfer.submitted| - 1].entries == t.active.entries
  {
    SweepResolves(t.pools, t.submitted, signalled);
    SweepKeeps(t.pools, t.submitted, signalled);
  }

  /** `update` never leaves a fence twice in the free list. */
  lemma UpdateKeepsFencesDistinct(t: Transfer, signalled: set<Fence>)
    requires NoDup(t.pools.fences)
    ensures NoDup(Update(t, signalled).transfer.pools.fences)
  {
    SweepFencesDistinct(t.pools, t.submitted, signalled);
    var fs := SweepBatches(t.pools, t.submitted, signalled).pools.fences;
    if |fs| > 0 {
      assert forall i, j :: 0 <= i < j < |fs| - 1 ==> fs[..|fs| - 1][i] == fs[i] && fs[..|fs| - 1][j] == fs[j];
    }
  }
}
