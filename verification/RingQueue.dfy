/** The single-writer, multi-reader ring queue. Every operation runs under the queue's lock, so
    an execution is a sequence of whole operations. */
module RingQueue {
  import opened Common

  const READERS := 4
  const EMPTY := -1
  const TIMED_OUT := -100

  // ---------------------------------------------------------------- the operations on values

  /** A reader's position after a write, `full` saying whether the oldest item was dropped for it. */
  function Advanced(r: int, full: bool, count: nat): (result: int) {
    (if full && r >= count - 1 then r - 1 else r) + 1
  }

  /** Newest item first. A write into a full queue drops the oldest item. */
  function Pushed<T>(queue: seq<T>, count: nat, x: T): (r: seq<T>)
    requires count >= 1
  {
    [x] + if |queue| == count then queue[..count - 1] else queue
  }

  function Moved(rpos: seq<int>, full: bool, count: nat): (r: seq<int>)
    ensures |r| == |rpos| && forall c :: 0 <= c < |r| ==> r[c] == Advanced(rpos[c], full, count)
  {
    seq(|rpos|, c requires 0 <= c < |rpos| => Advanced(rpos[c], full, count))
  }

  /** The queue's items oldest first. */
  function Reverse<T>(s: seq<T>): (r: seq<T>)
    ensures |r| == |s| && forall i {:trigger r[i]} :: 0 <= i < |s| ==> r[i] == s[|s| - 1 - i]
  {
    seq(|s|, i requires 0 <= i < |s| => s[|s| - 1 - i])
  }

  // ---------------------------------------------------------------- whole runs

  datatype Event<T> = Wrote(item: T) | Reads(reader: nat) | Cleared

  /** The queue with its history: everything written, everything released, and for each reader the
      write numbers of the items it was given. */
  datatype World<T> = World(queue: seq<T>, rpos: seq<int>, written: seq<T>, released: seq<T>, logs: seq<seq<nat>>)

  ghost function Start<T>(): (r: World<T>) {
    World([], [EMPTY, EMPTY, EMPTY, EMPTY], [], [], [[], [], [], []])
  }

  /** One operation. A read with nothing to give changes nothing. */
  ghost function Step<T>(w: World<T>, e: Event<T>, count: nat): (r: World<T>)
    requires count >= 1
  {
    match e
    case Wrote(x) =>
      w.(queue := Pushed(w.queue, count, x), rpos := Moved(w.rpos, |w.queue| == count, count),
         written := w.written + [x],
         released := if |w.queue| == count then w.released + [w.queue[count - 1]] else w.released)
    case Reads(c) =>
      if c < |w.rpos| && c < |w.logs| && 0 <= w.rpos[c] < |w.written| then
        w.(rpos := w.rpos[c := w.rpos[c] - 1], logs := w.logs[c := w.logs[c] + [|w.written| - 1 - w.rpos[c]]])
      else w
    case Cleared =>
      w.(queue := [], rpos := [EMPTY, EMPTY, EMPTY, EMPTY], released := w.released + Reverse(w.queue))
  }

  ghost function After<T>(events: seq<Event<T>>, count: nat): (r: World<T>)
    requires count >= 1
  {
    if events == [] then Start() else Step(After(events[..|events| - 1], count), events[|events| - 1], count)
  }

  /** The write number of the next item for a reader. */
  ghost function Next<T>(w: World<T>, c: nat): (r: int)
    requires c < |w.rpos|
  {
    |w.written| - 1 - w.rpos[c]
  }

  ghost predicate Increasing(log: seq<nat>) {
    forall i, j :: 0 <= i < j < |log| ==> log[i] < log[j]
  }

  /** What holds for one reader: its position is in the queue, it has been given items in write
      order and never twice, and an item it has passed over has been released. */
  ghost predicate ReaderInv<T>(w: World<T>, c: nat)
    requires c < |w.rpos| && c < |w.logs|
  {
    && EMPTY <= w.rpos[c] < |w.queue|
    && Increasing(w.logs[c])
    && (forall i :: 0 <= i < |w.logs[c]| ==> w.logs[c][i] < Next(w, c))
    && (forall n: nat :: n < Next(w, c) ==> n in w.logs[c] || n < |w.released|)
  }

  /** What holds at every point of every run. */
  ghost predicate Inv<T>(w: World<T>, count: nat) {
    && |w.rpos| == READERS && |w.logs| == READERS && |w.queue| <= count
    && w.written == w.released + Reverse(w.queue)
    && forall c: nat :: c < READERS ==> ReaderInv(w, c)
  }

  lemma PushedReverse<T>(queue: seq<T>, count: nat, x: T)
    requires count >= 1 && |queue| <= count
    ensures Reverse(queue) + [x]
            == (if |queue| == count then [queue[count - 1]] else []) + Reverse(Pushed(queue, count, x))
  {
    var p := Pushed(queue, count, x);
    if |queue| == count {
      assert Reverse(queue) + [x] == [queue[count - 1]] + Reverse(p) by {
        forall i | 0 <= i < count + 1
          ensures (Reverse(queue) + [x])[i] == ([queue[count - 1]] + Reverse(p))[i]
        {
          if i == 0 || i == count {} else { assert p[count - i] == queue[count - i - 1]; }
        }
      }
    } else {
      assert Reverse(queue) + [x] == Reverse(p);
    }
  }

  lemma StepKeepsInv<T>(w: World<T>, e: Event<T>, count: nat)
    requires count >= 1 && Inv(w, count)
    ensures Inv(Step(w, e, count), count)
  {
    var v := Step(w, e, count);
    match e
    case Wrote(x) =>
      PushedReverse(w.queue, count, x);
      assert v.written == v.released + Reverse(v.queue);
      forall c: nat | c < READERS ensures ReaderInv(v, c) {
        assert ReaderInv(w, c);
      }
    case Reads(r) =>
      forall c: nat | c < READERS ensures ReaderInv(v, c) {
        assert ReaderInv(w, c);
      }
    case Cleared =>
      forall c: nat | c < READERS ensures ReaderInv(v, c) {
        assert ReaderInv(w, c);
      }
  }

  /** Every reachable state: positions stay inside the queue, the queue inside its capacity, what
      was released is exactly a prefix of what was written, the queue holds the rest. */
  lemma {:induction false} AlwaysInv<T>(events: seq<Event<T>>, count: nat)
    requires count >= 1
    ensures Inv(After(events, count), count)
  {
    if events != [] {
      AlwaysInv(events[..|events| - 1], count);
      StepKeepsInv(After(events[..|events| - 1], count), events[|events| - 1], count);
    }
  }

  /** A reader is given exactly the item whose number its log then records. */
  lemma ReadGivesNext<T>(w: World<T>, c: nat, count: nat)
    requires Inv(w, count) && c < READERS && w.rpos[c] != EMPTY
    ensures 0 <= w.rpos[c] < |w.queue| && 0 <= Next(w, c) < |w.written|
    ensures w.queue[w.rpos[c]] == w.written[Next(w, c)]
    ensures count >= 1 ==> Step(w, Reads(c), count).logs[c] == w.logs[c] + [Next(w, c)]
  {
    assert ReaderInv(w, c);
    assert w.written[Next(w, c)] == Reverse(w.queue)[Next(w, c) - |w.released|];
  }

  // ---------------------------------------------------------------- what a reader can miss

  ghost predicate NeverCleared<T>(events: seq<Event<T>>) {
    forall i :: 0 <= i < |events| ==> !events[i].Cleared?
  }

  lemma {:induction false} ReleasedCount<T>(events: seq<Event<T>>, count: nat)
    requires count >= 1 && NeverCleared(events)
    ensures var w := After(events, count); |w.queue| == if |w.written| <= count then |w.written| else count
  {
    if events != [] {
      AlwaysInv(events[..|events| - 1], count);
      ReleasedCount(events[..|events| - 1], count);
    }
  }

  /** Without Clear, an item that a reader has passed over unread is more than `count` items behind
      the newest one: it was pushed out of a full queue. */
  lemma MissedMeansLate<T>(events: seq<Event<T>>, count: nat, c: nat, n: nat)
    requires count >= 1 && NeverCleared(events) && c < READERS
    ensures var w := After(events, count);
      Inv(w, count) && (n < Next(w, c) && n !in w.logs[c] ==> n + count < |w.written|)
  {
    AlwaysInv(events, count);
    ReleasedCount(events, count);
    assert ReaderInv(After(events, count), c);
  }

  // ---------------------------------------------------------------- readers do not disturb each other

  /** The run without the reads of the other readers. */
  ghost function Alone<T>(events: seq<Event<T>>, c: nat): (r: seq<Event<T>>) {
    if events == [] then []
    else
      var e := events[|events| - 1];
      Alone(events[..|events| - 1], c) + if e.Reads? && e.reader != c then [] else [e]
  }

  ghost predicate SameFor<T>(w: World<T>, v: World<T>, c: nat) {
    && w.queue == v.queue && w.written == v.written && w.released == v.released
    && |w.rpos| == |v.rpos| == |w.logs| == |v.logs| == READERS
    && (c < READERS ==> w.rpos[c] == v.rpos[c] && w.logs[c] == v.logs[c])
  }

  lemma SameStep<T>(w: World<T>, v: World<T>, e: Event<T>, count: nat, c: nat)
    requires count >= 1 && SameFor(w, v, c) && !(e.Reads? && e.reader != c)
    ensures SameFor(Step(w, e, count), Step(v, e, count), c)
  {
  }

  /** What a reader has been given, and where it stands, do not depend on what the others do. */
  lemma {:induction false} ReadersIndependent<T>(events: seq<Event<T>>, count: nat, c: nat)
    requires count >= 1
    ensures SameFor(After(events, count), After(Alone(events, c), count), c)
  {
    if events != [] {
      var e := events[|events| - 1];
      ReadersIndependent(events[..|events| - 1], count, c);
      var a, b := Alone(events, c), Alone(events[..|events| - 1], c);
      if !(e.Reads? && e.reader != c) {
        assert a == b + [e] && a[..|a| - 1] == b;
        SameStep(After(events[..|events| - 1], count), After(b, count), e, count, c);
      } else {
        assert a == b;
      }
    }
  }

  /** What the last operation of a run does: a write puts its item in front and is remembered, a read gives the
      reader one item, and clearing leaves the queue and all readers with nothing. */
  lemma LastStep<T>(events: seq<Event<T>>, e: Event<T>, count: nat)
    requires count >= 1
    ensures var w, v := After(events, count), After(events + [e], count);
      && (e.Wrote? ==> v.queue != [] && v.queue[0] == e.item && v.written == w.written + [e.item] && v.logs == w.logs)
      && (e.Reads? ==> v.queue == w.queue && v.written == w.written)
      && (e.Reads? && e.reader < 4 ==>
            (|v.logs| == |w.logs| == |w.rpos| == 4
             && |v.logs[e.reader]| == |w.logs[e.reader]| + if w.rpos[e.reader] >= 0 then 1 else 0))
      && (e.Cleared? ==> v.queue == [] && v.rpos == [-1, -1, -1, -1] && v.written == w.written == v.released)
  {
    assert (events + [e])[..|events|] == events;
    AlwaysInv(events, count);
    AlwaysInv(events + [e], count);
    if e.Reads? && e.reader < READERS { assert ReaderInv(After(events, count), e.reader); }
  }

  /** How many of the items the callback reported a failure for. */
  function Failures<T>(items: seq<T>, release: T -> int): (r: nat) {
    if items == [] then 0
    else Failures(items[..|items| - 1], release) + if release(items[|items| - 1]) < 0 then 1 else 0
  }

  /** ... that is, for how many places its result is negative. */
  lemma {:induction false} FailuresAre<T>(items: seq<T>, release: T -> int)
    ensures Failures(items, release) == |set i | 0 <= i < |items| && release(items[i]) < 0|
  {
    if items != [] {
      var n, before := |items| - 1, items[..|items| - 1];
      FailuresAre(before, release);
      var a := set i | 0 <= i < |before| && release(before[i]) < 0;
      var b := set i | 0 <= i < |items| && release(items[i]) < 0;
      assert b == a + if release(items[n]) < 0 then {n} else {};
    }
  }

  // ---------------------------------------------------------------- the queue object

  class TRWRingQueue<T(==)> {
    var queue: seq<T>
    const rpos: array<int>
    const count: nat
    ghost var world: World<T>

    /** The object stands where the run recorded in `world` puts it. */
    ghost predicate Valid()
      reads this, rpos
    {
      && count >= 1 && rpos.Length == READERS
      && queue == world.queue && rpos[..] == world.rpos && Inv(world, count)
    }

    constructor (n: nat)
      requires n >= 1
      ensures Valid() && count == n && fresh(rpos) && world == Start()
      ensures queue == [] && rpos[..] == [-1, -1, -1, -1]
    {
      queue := [];
      count := n;
      rpos := new int[READERS](_ => EMPTY);
      world := Start();
      new;
      assert rpos[..] == [EMPTY, EMPTY, EMPTY, EMPTY];
    }

    /** The next item for the reader, given to its callback. A reader that finds nothing and may wait
        only so long gets the time-out code; one that may wait for ever goes on when there is something. */
    method Read(channel: nat, timeout: int, utilize: T -> int) returns (ret: int, item: Option<T>)
      requires Valid() && (timeout < 0 ==> rpos[channel % READERS] != EMPTY)
      modifies this`world, rpos
      ensures Valid() && world == Step(old(world), Reads(channel % READERS), count)
      ensures item.None? <==> old(rpos[channel % READERS]) == EMPTY
      ensures item.Some? ==> 0 <= old(rpos[channel % READERS]) < |queue|
                             && item.value == queue[old(rpos[channel % READERS])]
      ensures ret == if item.Some? then utilize(item.value) else -100
      ensures queue == old(queue) && forall c :: 0 <= c < 4 ==>
        rpos[c] == old(rpos[c]) - if c == channel % 4 && item.Some? then 1 else 0
    {
      var chn := channel % READERS;
      StepKeepsInv(world, Reads(chn), count);
      assert ReaderInv(world, chn);
      world := Step(world, Reads(chn), count);
      if rpos[chn] <= EMPTY { return TIMED_OUT, None; }
      var current := queue[rpos[chn]];
      rpos[chn] := rpos[chn] - 1;
      return utilize(current), Some(current);
    }

    /** `released` are the items passed to the release callback, whose result is returned. */
    method Write(update: T, release: T -> int) returns (ret: int, released: seq<T>)
      requires Valid()
      modifies this, rpos
      ensures Valid() && world == Step(old(world), Wrote(update), count)
      ensures released == if old(|queue|) == count then [old(queue)[count - 1]] else []
      ensures ret == if old(|queue|) == count then release(old(queue)[count - 1]) else 0
      ensures queue == [update] + if old(|queue|) == count then old(queue)[..count - 1] else old(queue)
      ensures forall c :: 0 <= c < 4 ==>
        rpos[c] == if old(|queue|) == count && old(rpos[c]) == count - 1 then count - 1 else old(rpos[c]) + 1
    {
      forall c | 0 <= c < READERS ensures rpos[c] < |queue| {
        assert ReaderInv(world, c) && rpos[c] == rpos[..][c];
      }
      ghost var was := rpos[..];
      ret, released := 0, [];
      if |queue| == count {
        var outdate := queue[count - 1];
        ret := release(outdate);
        released := [outdate];
        queue := queue[..count - 1];
        for i := 0 to READERS
          invariant queue == old(queue)[..count - 1] && world == old(world)
          invariant forall c :: i <= c < READERS ==> rpos[c] == old(rpos[c])
          invariant forall c :: 0 <= c < i ==> rpos[c] + 1 == Advanced(old(rpos[c]), true, count)
        {
          if rpos[i] >= count - 1 { rpos[i] := rpos[i] - 1; }
        }
      }
      queue := [update] + queue;
      for i := 0 to READERS
        invariant queue == Pushed(old(queue), count, update) && world == old(world)
        invariant forall c :: 0 <= c < i ==> rpos[c] == Advanced(old(rpos[c]), old(|queue|) == count, count)
        invariant forall c :: i <= c < READERS ==> rpos[c] + 1 == Advanced(old(rpos[c]), old(|queue|) == count, count)
      {
        rpos[i] := rpos[i] + 1;
      }
      assert rpos[..] == Moved(was, old(|queue|) == count, count);
      forall c | 0 <= c < READERS
        ensures rpos[c] == if old(|queue|) == count && was[c] == count - 1 then count - 1 else was[c] + 1
      {
        assert rpos[c] == rpos[..][c] == Advanced(was[c], old(|queue|) == count, count);
      }
      StepKeepsInv(world, Wrote(update), count);
      world := Step(world, Wrote(update), count);
    }

    /** Everything is released, oldest first. */
    method Clear(release: T -> int) returns (ret: int, released: seq<T>)
      requires Valid()
      modifies this, rpos
      ensures Valid() && world == Step(old(world), Cleared, count)
      ensures queue == [] && rpos[..] == [-1, -1, -1, -1]
      ensures released == Reverse(old(queue)) && ret + Failures(released, release) == 0
    {
      ret, released := 0, [];
      while queue != []
        invariant world == old(world) && |queue| <= old(|queue|) && queue == old(queue)[..|queue|]
        invariant released == Reverse(old(queue)[|queue|..]) && ret + Failures(released, release) == 0
        decreases |queue|
      {
        var current := queue[|queue| - 1];
        queue := queue[..|queue| - 1];
        released := released + [current];
        assert released == Reverse(old(queue)[|queue|..]);
        assert released[..|released| - 1] + [current] == released;
        if release(current) < 0 { ret := ret - 1; }
      }
      for i := 0 to READERS
        invariant queue == [] && world == old(world) && forall c :: 0 <= c < i ==> rpos[c] == EMPTY
      {
        rpos[i] := EMPTY;
      }
      assert rpos[..] == [EMPTY, EMPTY, EMPTY, EMPTY];
      StepKeepsInv(world, Cleared, count);
      world := Step(world, Cleared, count);
    }
  }
}
