/** The filter that keeps detected rectangles from shaking: a rectangle that has hardly moved since the
    last frame is drawn where it was. */
module AntiShake {

  /** The corners, in parts of the image's width and height. */
  datatype Rect = Rect(x1: real, y1: real, x2: real, y2: real)

  /** A detected object: its rectangle and all else that is known of it. */
  datatype Object = Object(rect: Rect, rest: int)

  /** The size of the image and the two threshold factors. */
  datatype Scale = Scale(width: real, height: real, thresholdX: real, thresholdY: real)

  function Square(x: real): (r: real) { x * x }

  /** The square of the distance of two points given in parts of the image. */
  function Distance2(c: Scale, px: real, py: real, qx: real, qy: real): (r: real) {
    Square(px * c.width - qx * c.width) + Square(py * c.height - qy * c.height)
  }

  /** A distance with this square is less than d. */
  predicate Less(square: real, d: real) { d > 0.0 && square < Square(d) }

  /** How far the upper left and the lower right corner have moved, squared. */
  function FirstMoved(c: Scale, seen: Rect, kept: Rect): (r: real) {
    Distance2(c, kept.x1, kept.y1, seen.x1, seen.y1)
  }

  function SecondMoved(c: Scale, seen: Rect, kept: Rect): (r: real) {
    Distance2(c, kept.x2, kept.y2, seen.x2, seen.y2)
  }

  /** How far they may have moved, by the new rectangle's width and height. */
  function ByWidth(c: Scale, seen: Rect): (r: real) { c.thresholdX * (seen.x2 * c.width - seen.x1 * c.width) }

  function ByHeight(c: Scale, seen: Rect): (r: real) { c.thresholdY * (seen.y2 * c.height - seen.y1 * c.height) }

  /** Has each corner of the old rectangle moved by less than the new one's threshold? */
  predicate Near(c: Scale, seen: Rect, kept: Rect) {
    && Less(FirstMoved(c, seen, kept), ByWidth(c, seen))
    && Less(SecondMoved(c, seen, kept), ByHeight(c, seen))
  }

  type Nearness = (Rect, Rect) -> bool

  function NearBy(c: Scale): (r: Nearness) { (seen, kept) => Near(c, seen, kept) }

  lemma SquareOfProduct(x: real, w: real)
    ensures Square(x * w) == x * x * (w * w)
  {
    assert (x * w) * (x * w) == x * (w * (x * w)) == x * (x * (w * w));
  }

  lemma DistanceIs(c: Scale, px: real, py: real, qx: real, qy: real)
    ensures Distance2(c, px, py, qx, qy)
            == (px - qx) * (px - qx) * (c.width * c.width) + (py - qy) * (py - qy) * (c.height * c.height)
  {
    assert px * c.width - qx * c.width == (px - qx) * c.width;
    assert py * c.height - qy * c.height == (py - qy) * c.height;
    SquareOfProduct(px - qx, c.width);
    SquareOfProduct(py - qy, c.height);
  }

  /** In coordinates: the upper left corner is nearer than a part of the detected width ... */
  ghost predicate FirstClose(c: Scale, seen: Rect, drawn: Rect) {
    var a, dx, dy := c.thresholdX * ((seen.x2 - seen.x1) * c.width), drawn.x1 - seen.x1, drawn.y1 - seen.y1;
    a > 0.0 && dx * dx * (c.width * c.width) + dy * dy * (c.height * c.height) < a * a
  }

  /** ... and the lower right one than a part of the detected height. */
  ghost predicate SecondClose(c: Scale, seen: Rect, drawn: Rect) {
    var b, dx, dy := c.thresholdY * ((seen.y2 - seen.y1) * c.height), drawn.x2 - seen.x2, drawn.y2 - seen.y2;
    b > 0.0 && dx * dx * (c.width * c.width) + dy * dy * (c.height * c.height) < b * b
  }

  lemma FirstIs(c: Scale, seen: Rect, kept: Rect)
    ensures Less(FirstMoved(c, seen, kept), ByWidth(c, seen)) <==> FirstClose(c, seen, kept)
  {
    DistanceIs(c, kept.x1, kept.y1, seen.x1, seen.y1);
    assert seen.x2 * c.width - seen.x1 * c.width == (seen.x2 - seen.x1) * c.width;
  }

  lemma SecondIs(c: Scale, seen: Rect, kept: Rect)
    ensures Less(SecondMoved(c, seen, kept), ByHeight(c, seen)) <==> SecondClose(c, seen, kept)
  {
    DistanceIs(c, kept.x2, kept.y2, seen.x2, seen.y2);
    assert seen.y2 * c.height - seen.y1 * c.height == (seen.y2 - seen.y1) * c.height;
  }

  lemma NearIs(c: Scale, seen: Rect, kept: Rect)
    ensures Near(c, seen, kept) <==> FirstClose(c, seen, kept) && SecondClose(c, seen, kept)
  {
    FirstIs(c, seen, kept);
    SecondIs(c, seen, kept);
  }

  // ---------------------------------------------------------------- what one frame does

  const NONE := -1

  /** The old rectangle for a new one is the first near one that no earlier new one has taken. */
  ghost predicate Chosen(near: Nearness, o: Object, olds: seq<Object>, taken: seq<int>, m: int) {
    if m == NONE then forall j :: 0 <= j < |olds| && j !in taken ==> !near(o.rect, olds[j].rect)
    else
      && 0 <= m < |olds| && m !in taken && near(o.rect, olds[m].rect)
      && forall j :: 0 <= j < m && j !in taken ==> !near(o.rect, olds[j].rect)
  }

  function Replaced(o: Object, olds: seq<Object>, m: int): (r: Object) {
    if 0 <= m < |olds| then o.(rect := olds[m].rect) else o
  }

  ghost predicate Served(near: Nearness, raw: seq<Object>, olds: seq<Object>, out: seq<Object>, picks: seq<int>, i: nat)
    requires i < |raw| && i < |out| && i < |picks|
  {
    Chosen(near, raw[i], olds, picks[..i], picks[i]) && out[i] == Replaced(raw[i], olds, picks[i])
  }

  /** The first n results of a frame, `picks` giving for each the old rectangle that it was matched with. */
  ghost predicate Filtered(near: Nearness, raw: seq<Object>, olds: seq<Object>, out: seq<Object>, picks: seq<int>,
                           n: nat) {
    && |out| == |raw| && n <= |picks| && n <= |raw|
    && forall i {:trigger Served(near, raw, olds, out, picks, i)} :: 0 <= i < n ==>
         Served(near, raw, olds, out, picks, i)
  }

  /** No old rectangle serves two new ones. */
  lemma Injective(near: Nearness, raw: seq<Object>, olds: seq<Object>, out: seq<Object>, picks: seq<int>, i: nat,
                  j: nat)
    requires Filtered(near, raw, olds, out, picks, |raw|) && i < j < |raw| && picks[j] != NONE
    ensures picks[i] != picks[j]
  {
    assert Served(near, raw, olds, out, picks, j) && picks[..j][i] == picks[i];
  }

  lemma SamePick(near: Nearness, raw: seq<Object>, olds: seq<Object>, out: seq<Object>, out': seq<Object>,
                 m: seq<int>, m': seq<int>, k: nat)
    requires k < |raw| && Filtered(near, raw, olds, out, m, |raw|) && Filtered(near, raw, olds, out', m', |raw|)
    requires m[..k] == m'[..k]
    ensures m[k] == m'[k] && out[k] == out'[k]
  {
    assert Served(near, raw, olds, out, m, k) && Served(near, raw, olds, out', m', k);
    SameChoice(near, raw[k], olds, m[..k], m[k], m'[k]);
  }

  lemma {:induction false} SameMatch(near: Nearness, raw: seq<Object>, olds: seq<Object>, out: seq<Object>,
                                     out': seq<Object>,
                                     m: seq<int>, m': seq<int>, n: nat)
    requires n <= |raw| <= |m| && |raw| <= |m'|
    requires Filtered(near, raw, olds, out, m, |raw|) && Filtered(near, raw, olds, out', m', |raw|)
    ensures m[..n] == m'[..n]
  {
    if n > 0 {
      SameMatch(near, raw, olds, out, out', m, m', n - 1);
      SamePick(near, raw, olds, out, out', m, m', n - 1);
      assert m[..n] == m[..n - 1] + [m[n - 1]] && m'[..n] == m'[..n - 1] + [m'[n - 1]];
    }
  }

  /** The matching, and with it the result, leaves no choice. */
  lemma Determined(near: Nearness, raw: seq<Object>, olds: seq<Object>, out: seq<Object>, out': seq<Object>,
                   m: seq<int>, m': seq<int>)
    requires Filtered(near, raw, olds, out, m, |raw|) && Filtered(near, raw, olds, out', m', |raw|)
    ensures out == out'
  {
    forall i | 0 <= i < |raw| ensures out[i] == out'[i] {
      SameMatch(near, raw, olds, out, out', m, m', i);
      SamePick(near, raw, olds, out, out', m, m', i);
    }
  }

  lemma SameChoice(near: Nearness, o: Object, olds: seq<Object>, taken: seq<int>, m: int, m': int)
    requires Chosen(near, o, olds, taken, m) && Chosen(near, o, olds, taken, m')
    ensures m == m'
  {
  }

  // ---------------------------------------------------------------- whole runs

  ghost function Before(outs: seq<seq<Object>>, t: nat): (r: seq<Object>)
    requires t <= |outs|
  {
    if t == 0 then [] else outs[t - 1]
  }

  ghost predicate Frame(near: Nearness, raws: seq<seq<Object>>, outs: seq<seq<Object>>, matches: seq<seq<int>>, t: nat)
    requires t < |raws| == |outs| == |matches|
  {
    Filtered(near, raws[t], Before(outs, t), outs[t], matches[t], |raws[t]|)
  }

  /** Each frame is filtered against the results of the one before. */
  ghost predicate Run(near: Nearness, raws: seq<seq<Object>>, outs: seq<seq<Object>>, matches: seq<seq<int>>) {
    |raws| == |outs| == |matches| && forall t: nat :: t < |raws| ==> Frame(near, raws, outs, matches, t)
  }

  lemma RawOrNear(near: Nearness, raws: seq<seq<Object>>, outs: seq<seq<Object>>, matches: seq<seq<int>>, t: nat,
                    i: nat)
    requires Run(near, raws, outs, matches) && t < |raws| && i < |raws[t]|
    ensures |outs[t]| == |raws[t]| && outs[t][i].rest == raws[t][i].rest
    ensures outs[t][i].rect == raws[t][i].rect || near(raws[t][i].rect, outs[t][i].rect)
  {
    assert Frame(near, raws, outs, matches, t);
    assert Served(near, raws[t], Before(outs, t), outs[t], matches[t], i);
  }

  /** However long the run, a result lies where its object has been detected in this frame, or both its corners
      are nearer to that place than the thresholds, which are parts of the detected width and height. */
  lemma NeverDrifts(c: Scale, raws: seq<seq<Object>>, outs: seq<seq<Object>>, matches: seq<seq<int>>, t: nat, i: nat)
    requires Run(NearBy(c), raws, outs, matches) && t < |raws| && i < |raws[t]|
    ensures |outs[t]| == |raws[t]| && outs[t][i].rest == raws[t][i].rest
    ensures outs[t][i].rect == raws[t][i].rect ||
            (FirstClose(c, raws[t][i].rect, outs[t][i].rect) && SecondClose(c, raws[t][i].rect, outs[t][i].rect))
  {
    RawOrNear(NearBy(c), raws, outs, matches, t, i);
    NearIs(c, raws[t][i].rect, outs[t][i].rect);
  }

  /** The converse for one frame: an old rectangle to which both corners are that near, and which no earlier
      result has taken, is taken, or else an earlier old one. */
  lemma NearIsTaken(c: Scale, raw: seq<Object>, olds: seq<Object>, out: seq<Object>, picks: seq<int>, i: nat, j: nat)
    requires Filtered(NearBy(c), raw, olds, out, picks, |raw|)
    requires i < |raw| && j < |olds| && j !in picks[..i]
    requires FirstClose(c, raw[i].rect, olds[j].rect) && SecondClose(c, raw[i].rect, olds[j].rect)
    ensures 0 <= picks[i] <= j && out[i].rect == olds[picks[i]].rect && out[i].rest == raw[i].rest
  {
    NearIs(c, raw[i].rect, olds[j].rect);
    assert Served(NearBy(c), raw, olds, out, picks, i);
  }

  /** A result lies where its object has been detected or where some result of the last frame lay. */
  lemma FromLastFrame(near: Nearness, raws: seq<seq<Object>>, outs: seq<seq<Object>>, matches: seq<seq<int>>,
                      t: nat, i: nat)
    requires Run(near, raws, outs, matches) && t < |raws| && i < |raws[t]|
    ensures |outs[t]| == |raws[t]| && i < |matches[t]| && (t > 0 ==> |outs[t - 1]| == |raws[t - 1]|)
    ensures var m := matches[t][i];
      if m == NONE then outs[t][i].rect == raws[t][i].rect
      else t > 0 && 0 <= m < |outs[t - 1]| && outs[t][i].rect == outs[t - 1][m].rect
  {
    assert Frame(near, raws, outs, matches, t) && (t > 0 ==> Frame(near, raws, outs, matches, t - 1));
    assert Served(near, raws[t], Before(outs, t), outs[t], matches[t], i);
  }

  /** Every rectangle that is drawn has been detected, now or in an earlier frame. */
  lemma {:induction false} WasDetected(near: Nearness, raws: seq<seq<Object>>, outs: seq<seq<Object>>,
                                       matches: seq<seq<int>>, t: nat, i: nat) returns (s: nat, k: nat)
    requires Run(near, raws, outs, matches) && t < |raws| && i < |raws[t]|
    ensures s <= t && k < |raws[s]| && |outs[t]| == |raws[t]| && outs[t][i].rect == raws[s][k].rect
    decreases t
  {
    FromLastFrame(near, raws, outs, matches, t, i);
    var m := matches[t][i];
    if m == NONE {
      s, k := t, i;
    } else {
      s, k := WasDetected(near, raws, outs, matches, t - 1, m);
    }
  }

  // ---------------------------------------------------------------- the filter object

  /** Which of the old objects are still there, in order. */
  ghost predicate Left(left: seq<nat>, picks: seq<int>, n: nat) {
    && (forall a, b :: 0 <= a < b < |left| ==> left[a] < left[b])
    && forall j: nat :: j in left <==> j < n && j !in picks
  }

  lemma NothingTaken(n: nat) returns (left: seq<nat>)
    ensures Left(left, [], n) && |left| == n && forall k :: 0 <= k < n ==> left[k] == k
  {
    left := seq(n, k requires 0 <= k < n => k);
    forall j: nat ensures j in left <==> j < n {
      if j < n { assert left[j] == j; }
    }
  }

  lemma TakeOne(left: seq<nat>, picks: seq<int>, n: nat, k: nat)
    requires Left(left, picks, n) && k < |left|
    ensures Left(left[..k] + left[k + 1..], picks + [left[k]], n)
  {
    var rest := left[..k] + left[k + 1..];
    forall j: nat ensures j in rest <==> j < n && j !in picks + [left[k]] {
      if j in left && j != left[k] {
        var i :| 0 <= i < |left| && left[i] == j;
        assert rest[if i < k then i else i - 1] == j;
      }
      if j in rest {
        var i :| 0 <= i < |rest| && rest[i] == j;
        if i >= k { assert rest[i] == left[k + 1..][i - k] == left[i + 1]; }
        assert j in left && j != left[k];
      }
    }
  }

  lemma TakeNone(left: seq<nat>, picks: seq<int>, n: nat)
    requires Left(left, picks, n)
    ensures Left(left, picks + [NONE], n)
  {
  }

  /** The first near one of those that are left is the first near one that has not been taken. */
  lemma FirstLeft(near: Nearness, o: Object, olds: seq<Object>, left: seq<nat>, picks: seq<int>, k: nat)
    requires Left(left, picks, |olds|) && k <= |left|
    requires forall a :: 0 <= a < |left| ==> left[a] < |olds|
    requires forall a :: 0 <= a < k ==> !near(o.rect, olds[left[a]].rect)
    requires k < |left| ==> near(o.rect, olds[left[k]].rect)
    ensures Chosen(near, o, olds, picks, if k < |left| then left[k] else NONE)
  {
    var m: int := if k < |left| then left[k] else |olds|;
    if k < |left| { assert left[k] in left; }
    forall j | 0 <= j < m && j !in picks ensures !near(o.rect, olds[j].rect) {
      assert j in left;
      var a :| 0 <= a < |left| && left[a] == j;
      assert a < k;
    }
  }

  const CAPACITY := 100

  class Filter {
    /** The results of the last frame. */
    const lastResults: array<Object>
    var oldNums: nat

    ghost predicate Valid()
      reads this, lastResults
    {
      lastResults.Length == CAPACITY && oldNums <= CAPACITY
    }

    constructor ()
      ensures Valid() && fresh(lastResults) && oldNums == 0
    {
      lastResults := new Object[CAPACITY](_ => Object(Rect(0.0, 0.0, 0.0, 0.0), 0));
      oldNums := 0;
    }

    /** The first of the old rectangles that is near, or their number. */
    method FindNear(c: Scale, rect: Rect) returns (j: nat)
      requires Valid()
      ensures j <= oldNums && (j < oldNums ==> NearBy(c)(rect, lastResults[j].rect))
      ensures forall a :: 0 <= a < j ==> !NearBy(c)(rect, lastResults[a].rect)
    {
      j := 0;
      while j < oldNums
        invariant j <= oldNums && forall a :: 0 <= a < j ==> !NearBy(c)(rect, lastResults[a].rect)
      {
        if Near(c, rect, lastResults[j].rect) { return; }
        j := j + 1;
      }
    }

    /** Takes the j-th old rectangle out by moving the later ones down. */
    method TakeOut(j: nat)
      requires Valid() && j < oldNums
      modifies lastResults, this`oldNums
      ensures Valid() && oldNums == old(oldNums) - 1
      ensures forall k :: 0 <= k < j ==> lastResults[k] == old(lastResults[k])
      ensures forall k :: j <= k < oldNums ==> lastResults[k] == old(lastResults[k + 1])
    {
      for k := j to oldNums - 1
        invariant oldNums == old(oldNums)
        invariant forall a :: 0 <= a < j || k <= a < oldNums ==> lastResults[a] == old(lastResults[a])
        invariant forall a :: j <= a < k ==> lastResults[a] == old(lastResults[a + 1])
      {
        lastResults[k] := lastResults[k + 1];
      }
      oldNums := oldNums - 1;
    }

    /** The old rectangles that are left are those with these numbers. */
    ghost predicate Holds(olds: seq<Object>, left: seq<nat>)
      reads this, lastResults
      requires Valid()
    {
      |left| == oldNums && forall k :: 0 <= k < |left| ==> left[k] < |olds| && lastResults[k] == olds[left[k]]
    }

    /** One result: takes the rectangle of the first near old one, which is used up. */
    method FilterOne(c: Scale, o: Object, ghost olds: seq<Object>, ghost left: seq<nat>, ghost picks: seq<int>)
      returns (r: Object, ghost m: int, ghost left': seq<nat>)
      requires Valid() && Holds(olds, left) && Left(left, picks, |olds|)
      modifies lastResults, this`oldNums
      ensures Valid() && Holds(olds, left') && Left(left', picks + [m], |olds|)
      ensures Chosen(NearBy(c), o, olds, picks, m) && r == Replaced(o, olds, m)
    {
      var j := FindNear(c, o.rect);
      FirstLeft(NearBy(c), o, olds, left, picks, j);
      if j < oldNums {
        r := o.(rect := lastResults[j].rect);
        m, left' := left[j], left[..j] + left[j + 1..];
        TakeOne(left, picks, |olds|, j);
        TakeOut(j);
      } else {
        r, m, left' := o, NONE, left;
        TakeNone(left, picks, |olds|);
      }
    }

    method Remember(results: array<Object>, nums: nat)
      requires Valid() && results != lastResults && nums <= results.Length == CAPACITY
      modifies this`oldNums, lastResults
      ensures Valid() && oldNums == nums && lastResults[..nums] == results[..nums]
    {
      forall k | 0 <= k < CAPACITY { lastResults[k] := results[k]; }
      oldNums := nums;
    }

    /** Filters the first `nums` results in place; the old ones that are taken are used up. */
    method FilterAll(c: Scale, results: array<Object>, nums: nat) returns (ghost picks: seq<int>)
      requires Valid() && results != lastResults && nums <= results.Length == CAPACITY
      modifies this`oldNums, lastResults, results
      ensures Valid()
      ensures Filtered(NearBy(c), old(results[..nums]), old(lastResults[..oldNums]), results[..nums], picks, nums)
      ensures forall k :: nums <= k < CAPACITY ==> results[k] == old(results[k])
    {
      ghost var raw, olds := results[..nums], lastResults[..oldNums];
      picks := [];
      ghost var left := NothingTaken(oldNums);
      for i := 0 to nums
        invariant Valid() && |picks| == i && Holds(olds, left) && Left(left, picks, |olds|)
        invariant Filtered(NearBy(c), raw, olds, results[..nums], picks, i)
        invariant forall k :: i <= k < CAPACITY ==> results[k] == old(results[k])
      {
        ghost var m, left';
        ghost var out := results[..nums];
        var r;
        r, m, left' := FilterOne(c, results[i], olds, left, picks);
        results[i] := r;
        FilteredNext(NearBy(c), raw, olds, out, picks, i, r, m);
        assert results[..nums] == out[i := r];
        picks, left := picks + [m], left';
      }
    }

    /** ... and the results become the old ones. */
    method FilterFrame(c: Scale, results: array<Object>, nums: nat) returns (ghost picks: seq<int>)
      requires Valid() && results != lastResults && nums <= results.Length == CAPACITY
      modifies this`oldNums, lastResults, results
      ensures Valid() && oldNums == nums && lastResults[..nums] == results[..nums]
      ensures Filtered(NearBy(c), old(results[..nums]), old(lastResults[..oldNums]), results[..nums], picks, nums)
      ensures forall k :: nums <= k < CAPACITY ==> results[k] == old(results[k])
    {
      picks := FilterAll(c, results, nums);
      ghost var out := results[..nums];
      Remember(results, nums);
      assert results[..nums] == out;
    }

    /** Filters one frame after the other, each in a buffer of its own; what the frames then hold is a run. */
    method FilterFrames(c: Scale, raws: seq<seq<Object>>) returns (outs: seq<seq<Object>>, ghost matches: seq<seq<int>>)
      requires Valid() && oldNums == 0 && forall t :: 0 <= t < |raws| ==> |raws[t]| <= CAPACITY
      modifies this`oldNums, lastResults
      ensures Valid() && Run(NearBy(c), raws, outs, matches)
      ensures lastResults[..oldNums] == Before(outs, |outs|)
    {
      outs, matches := [], [];
      for t := 0 to |raws|
        invariant Valid() && |outs| == |matches| == t && lastResults[..oldNums] == Before(outs, t)
        invariant Run(NearBy(c), raws[..t], outs, matches)
      {
        var out, picks := FilterNext(c, raws[t]);
        RunNext(NearBy(c), raws[..t], outs, matches, raws[t], out, picks);
        assert raws[..t + 1] == raws[..t] + [raws[t]];
        outs, matches := outs + [out], matches + [picks];
      }
      assert raws[..|raws|] == raws;
    }

    method FilterNext(c: Scale, raw: seq<Object>) returns (out: seq<Object>, ghost picks: seq<int>)
      requires Valid() && |raw| <= CAPACITY
      modifies this`oldNums, lastResults
      ensures Valid() && lastResults[..oldNums] == out
      ensures Filtered(NearBy(c), raw, old(lastResults[..oldNums]), out, picks, |raw|)
    {
      var blank := Object(Rect(0.0, 0.0, 0.0, 0.0), 0);
      var results := new Object[CAPACITY](i requires 0 <= i < CAPACITY => if i < |raw| then raw[i] else blank);
      assert results[..|raw|] == raw;
      picks := FilterFrame(c, results, |raw|);
      out := results[..|raw|];
    }
  }

  lemma RunNext(near: Nearness, raws: seq<seq<Object>>, outs: seq<seq<Object>>, matches: seq<seq<int>>,
                raw: seq<Object>, out: seq<Object>, picks: seq<int>)
    requires Run(near, raws, outs, matches) && Filtered(near, raw, Before(outs, |outs|), out, picks, |raw|)
    ensures Run(near, raws + [raw], outs + [out], matches + [picks])
  {
    var raws', outs', matches' := raws + [raw], outs + [out], matches + [picks];
    forall t: nat | t < |raws'| ensures Frame(near, raws', outs', matches', t) {
      if t < |raws| { assert Frame(near, raws, outs, matches, t); }
      assert Before(outs', t) == Before(outs, t);
    }
  }

  lemma FilteredNext(near: Nearness, raw: seq<Object>, olds: seq<Object>, out: seq<Object>, picks: seq<int>, i: nat,
                     r: Object, m: int)
    requires i < |raw| && i == |picks| && Filtered(near, raw, olds, out, picks, i)
    requires Chosen(near, raw[i], olds, picks, m) && r == Replaced(raw[i], olds, m)
    ensures Filtered(near, raw, olds, out[i := r], picks + [m], i + 1)
  {
    var next, all := out[i := r], picks + [m];
    forall k | 0 <= k < i + 1 ensures Served(near, raw, olds, next, all, k) {
      assert all[..k] == picks[..k];
      assert k < i ==> Served(near, raw, olds, out, picks, k);
      if k == i { assert picks[..k] == picks; }
    }
  }
}
