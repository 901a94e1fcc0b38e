/** The inertial filter's use of the matrix list. Its matrices are freed by position, so it has to copy
    the ones it keeps to the front before each release. */
module InertialFilter {
  import opened Common
  import opened Arena

  const BACKUPS := 8

  /** The parts of a sample that the filter reads; the first acceleration is replaced by zero. */
  datatype Sample = Sample(w0: real, w1: real, w2: real, a0: real, a1: real, a2: real)

  function Minus(p: real, x: seq<real>, q: real, y: seq<real>): (r: seq<real>)
    requires |x| == |y|
    ensures |r| == |x|
  {
    seq(|x|, i requires 0 <= i < |x| => x[i] * p - y[i] * q)
  }

  function Sign(x: real): (r: real) { if x < 0.0 then -1.0 else 1.0 }

  function Abs(x: real): (r: real)
    ensures r >= 0.0
  {
    if x < 0.0 then -x else x
  }

  /** The radius for a smoothed rate of turn at two metres a second. */
  function RadiusFor(w: real): (r: real) {
    var r := -2.0 * Sign(w) / (Abs(w) + 0.00001);
    if Abs(r) > 50.0 then 1000.0 else r
  }

  /** At two metres a second: the radius times the rate (and a little) is two metres, to the other side than the
      turn, as long as it is at most fifty metres; the rest counts as straight on. */
  lemma RadiusIs(w: real)
    ensures var rate := (if w < 0.0 then -w else w) + 0.00001;
      if 50.0 * rate < 2.0 then RadiusFor(w) == 1000.0
      else RadiusFor(w) * rate == (if w < 0.0 then 2.0 else -2.0) && -50.0 <= RadiusFor(w) <= 50.0
  {
    var rate := Abs(w) + 0.00001;
    Ratio(rate);
    assert Sign(w) == if w < 0.0 then -1.0 else 1.0;
    assert -2.0 * Sign(w) / rate == if w < 0.0 then 2.0 / rate else -(2.0 / rate);
  }

  lemma Ratio(rate: real)
    requires rate > 0.0
    ensures 2.0 / rate * rate == 2.0 && 2.0 / rate > 0.0 && (2.0 / rate > 50.0 <==> 50.0 * rate < 2.0)
    ensures -2.0 / rate == -(2.0 / rate)
  {
  }

  /** A list with whatever the initialisation computes on the way. */
  method Temporaries(contents: seq<seq<real>>) returns (list: MemoryList)
    ensures fresh(list) && fresh(list.nodes) && list.Valid() && |list.live| == |contents| && list.freed == []
  {
    list := new MemoryList();
    for i := 0 to |contents|
      invariant fresh(list) && fresh(list.nodes) && list.Valid() && |list.live| == i && list.freed == []
    {
      var m := list.Apply(contents[i]);
    }
  }

  /** The backups, one after the other; the fifth and the sixth are the two biases. */
  method BackUp(list: MemoryList, backups: seq<seq<real>>) returns (biasA: Block, biasW: Block)
    requires list.Valid() && |backups| == BACKUPS
    modifies list
    ensures list.Valid() && list.freed == old(list.freed) && |list.live| == |old(list.live)| + BACKUPS
    ensures biasA == list.live[3] && biasA.data == backups[4] && biasW == list.live[2] && biasW.data == backups[5]
    ensures forall k :: 0 <= k < |list.nodes| ==> list.nodes[k] in old(list.nodes) || fresh(list.nodes[k])
  {
    var none := new Block([]);
    biasA, biasW := none, none;
    for i := 0 to BACKUPS
      invariant list.Valid() && list.freed == old(list.freed) && |list.live| == |old(list.live)| + i
      invariant forall k :: 0 <= k < |list.nodes| ==> list.nodes[k] in old(list.nodes) || fresh(list.nodes[k])
      invariant i > 4 ==> biasA == list.live[i - 5] && biasA.data == backups[4]
      invariant i > 5 ==> biasW == list.live[i - 6] && biasW.data == backups[5]
    {
      var m := list.Apply(backups[i]);
      if i == 4 { biasA := m; } else if i == 5 { biasW := m; }
    }
  }

  /** Whatever the initialisation computes on the way, in the end the eight matrices that it backs up
      are the only ones that live. */
  method Initialise(temporaries: seq<seq<real>>, backups: seq<seq<real>>)
    returns (list: MemoryList, biasA: Block, biasW: Block)
    requires |backups| == BACKUPS
    ensures fresh(list) && fresh(list.nodes) && list.Valid() && |list.live| == BACKUPS
    ensures biasA == list.live[3] && biasA.data == backups[4] && biasW == list.live[2] && biasW.data == backups[5]
    ensures |list.freed| == |temporaries|
  {
    list := Temporaries(temporaries);
    biasA, biasW := BackUp(list, backups);
    list.Release(BACKUPS);
  }

  class Filter {
    const list: MemoryList
    var biasA: Block
    var biasW: Block
    var w: Block
    var a: Block
    var wTemp: real
    var radius: real

    /** The two biases are live. */
    ghost predicate Valid()
      reads this, list, list.nodes
    {
      && list.Valid() && biasA in list.live && biasW in list.live
      && |biasA.data| == 3 && |biasW.data| == 3
    }

    /** `backups` are the contents of the eight matrices in the order in which they are copied. */
    constructor (temporaries: seq<seq<real>>, backups: seq<seq<real>>)
      requires |backups| == BACKUPS && |backups[4]| == 3 && |backups[5]| == 3
      ensures Valid() && fresh(list) && fresh(list.nodes) && |list.live| == BACKUPS
      ensures biasA == list.live[3] && biasW == list.live[2]
      ensures biasA.data == backups[4] && biasW.data == backups[5] && wTemp == 0.0 && radius == 1000.0
      ensures biasA != biasW && biasA !in list.freed && biasW !in list.freed && |list.freed| == |temporaries|
    {
      var l, ba, bw := Initialise(temporaries, backups);
      list, biasA, biasW, w, a := l, ba, bw, ba, ba;
      wTemp, radius := 0.0, 1000.0;
      l.Separate();
    }

    /** The difference of two scaled matrices, or None where their sizes differ; a matrix may be read only
        while it lives. */
    method AddSub(p: real, x: Block, q: real, y: Block) returns (r: Option<Block>)
      requires list.Valid() && x in list.live && y in list.live
      modifies list
      ensures r.Some? <==> |x.data| == |y.data|
      ensures list.Valid() && list.freed == old(list.freed)
      ensures r.None? ==> list.live == old(list.live)
      ensures r.Some? ==> list.live == [r.value] + old(list.live) && r.value.data == Minus(p, x.data, q, y.data)
      ensures r.Some? ==> |r.value.data| == |x.data| == |y.data|
      ensures r.Some? ==> forall i :: 0 <= i < |x.data| ==> r.value.data[i] == x.data[i] * p - y.data[i] * q
      ensures forall k :: 0 <= k < |list.nodes| ==> list.nodes[k] in old(list.nodes) || fresh(list.nodes[k])
    {
      if |x.data| != |y.data| { return None; }
      var m := list.Apply(Minus(p, x.data, q, y.data));
      r := Some(m);
    }

    method Copy(x: Block) returns (m: Block)
      requires list.Valid() && x in list.live
      modifies list
      ensures list.Valid() && list.live == [m] + old(list.live) && list.freed == old(list.freed)
      ensures m.data == x.data
      ensures forall k :: 0 <= k < |list.nodes| ==> list.nodes[k] in old(list.nodes) || fresh(list.nodes[k])
    {
      m := list.Apply(x.data);
    }

    /** A reading without its bias. */
    method Unbiased(data: seq<real>, bias: Block) returns (m: Block)
      requires list.Valid() && bias in list.live && |data| == |bias.data|
      modifies list
      ensures list.Valid() && list.freed == old(list.freed)
      ensures |list.live| == |old(list.live)| + 2 && list.live[2..] == old(list.live)
      ensures m.data == Minus(1.0, data, 1.0, bias.data)
      ensures forall k :: 0 <= k < |list.nodes| ==> list.nodes[k] in old(list.nodes) || fresh(list.nodes[k])
    {
      var reading := list.Apply(data);
      var difference := AddSub(1.0, reading, 1.0, bias);
      m := difference.value;
    }

    /** Copies of the two biases, at the front. */
    method CopyBiases()
      requires Valid()
      modifies this`biasA, this`biasW, list
      ensures list.Valid() && list.live == [biasW, biasA] + old(list.live) && list.freed == old(list.freed)
      ensures biasA.data == old(biasA.data) && biasW.data == old(biasW.data)
      ensures forall k :: 0 <= k < |list.nodes| ==> list.nodes[k] in old(list.nodes) || fresh(list.nodes[k])
    {
      var first := Copy(biasA);
      assert list.live[1..] == old(list.live);
      var second := Copy(biasW);
      biasA, biasW := first, second;
    }

    /** The two biases are copied to the front, and only the copies survive. */
    method KeepBiases()
      requires Valid()
      modifies this`biasA, this`biasW, list, list.nodes
      ensures list.Valid() && list.live == [biasW, biasA]
      ensures biasA.data == old(biasA.data) && biasW.data == old(biasW.data)
      ensures biasA != biasW && biasA !in list.freed && biasW !in list.freed && Distinct(list.freed)
      ensures list.freed == old(list.freed) + old(list.live)
      ensures forall k :: 0 <= k < |list.nodes| ==> list.nodes[k] in old(list.nodes) || fresh(list.nodes[k])
    {
      CopyBiases();
      ghost var all := list.live;
      list.Release(2);
      assert all[..2] == [biasW, biasA] && all[2..] == old(list.live);
      list.Separate();
    }

    /** The sample's rate of turn and its acceleration, without their biases. */
    method Read(s: Sample)
      requires Valid()
      modifies this`w, this`a, list
      ensures Valid() && list.freed == old(list.freed) && |list.live| == |old(list.live)| + 4
      ensures |w.data| == 3 && w.data[2] == s.w2 - biasW.data[2]
      ensures a.data == Minus(1.0, [0.0, s.a1, s.a2], 1.0, biasA.data)
      ensures forall k :: 0 <= k < |list.nodes| ==> list.nodes[k] in old(list.nodes) || fresh(list.nodes[k])
    {
      w := Unbiased([s.w0, s.w1, s.w2], biasW);
      assert biasA in list.live[2..] && biasW in list.live[2..];
      a := Unbiased([0.0, s.a1, s.a2], biasA);
      assert biasA in list.live[2..] && biasW in list.live[2..];
    }

    method Smooth(rate: real)
      modifies this`wTemp, this`radius
      ensures wTemp == 0.9 * old(wTemp) + 0.1 * rate && radius == RadiusFor(wTemp)
    {
      wTemp := 0.9 * wTemp + 0.1 * rate;
      radius := RadiusFor(wTemp);
    }

    /** One step leaves exactly the two biases, with their values, two matrices that have not been freed,
        and frees everything else. */
    method Step(s: Sample)
      requires Valid()
      modifies this, list, list.nodes
      ensures Valid() && list.live == [biasW, biasA] && biasA.data == old(biasA.data) && biasW.data == old(biasW.data)
      ensures biasA != biasW && biasA !in list.freed && biasW !in list.freed && Distinct(list.freed)
      ensures |list.freed| == |old(list.freed)| + |old(list.live)| + 4
      ensures forall k :: 0 <= k < |list.nodes| ==> list.nodes[k] in old(list.nodes) || fresh(list.nodes[k])
      ensures wTemp == 0.9 * old(wTemp) + 0.1 * (s.w2 - biasW.data[2]) && radius == RadiusFor(wTemp)
    {
      Read(s);
      Smooth(w.data[2]);
      KeepBiases();
    }

    /** However many steps follow, the list never holds more than the two biases. */
    method Run(samples: seq<Sample>)
      requires Valid()
      modifies this, list, list.nodes
      ensures Valid() && biasA.data == old(biasA.data) && biasW.data == old(biasW.data)
      ensures if samples == [] then list.live == old(list.live) else list.live == [biasW, biasA]
      ensures biasA !in list.freed && biasW !in list.freed && (samples != [] ==> biasA != biasW)
    {
      for i := 0 to |samples|
        invariant Valid() && biasA.data == old(biasA.data) && biasW.data == old(biasW.data)
        invariant forall k :: 0 <= k < |list.nodes| ==> list.nodes[k] in old(list.nodes) || fresh(list.nodes[k])
        invariant list.live == if i == 0 then old(list.live) else [biasW, biasA]
      {
        Step(samples[i]);
      }
      list.Separate();
    }
  }
}
