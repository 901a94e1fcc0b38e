/** Streams of opcodes in any byte format: a format is a writer of single opcodes and a reader
    of one opcode whose first byte has just been taken. The FastLZ levels are two such formats. */
module OpcodeStream {
  import opened Common
  import opened Lz77

  /** What reading one opcode gives. Truncated means a read past the end of the stream. */
  datatype Parsed = Op(op: Opcode, next: nat) | Malformed | Truncated

  datatype Format = Format(
    expressible: Opcode -> bool,
    write: Opcode -> seq<byte>,
    read: (seq<byte>, nat, byte) -> Parsed,
    stop: nat)

  datatype Outcome = Done(data: seq<byte>) | Rejected | Overread

  /** Decoding from position `ip`, with the control byte `ctrl` taken and `out` already produced.
      The decoder stops when fewer than `stop` bytes are left. The `ip` test only makes the
      recursion total: every reader moves forward. */
  function Decode(f: Format, z: seq<byte>, ip: nat, ctrl: byte, out: seq<byte>, maxout: nat): (r: Outcome)
    requires |out| <= maxout
    ensures r.Done? ==> |out| <= |r.data| <= maxout
    decreases |z| - ip
  {
    match f.read(z, ip, ctrl)
    case Malformed => Rejected
    case Truncated => Overread
    case Op(op, next) =>
      if |out| + OpLen(op) > maxout || !Fits(op, |out|) then Rejected
      else if next + f.stop > |z| then Done(Apply(op, out))
      else if next >= |z| || next < ip then Rejected
      else Decode(f, z, next + 1, z[next], Apply(op, out), maxout)
  }

  /** A whole stream: the three tag bits of the first byte are masked off. */
  function DecodeStream(f: Format, z: seq<byte>, maxout: nat): (r: Outcome)
    requires z != []
    ensures r.Done? ==> |r.data| <= maxout
  {
    Decode(f, z, 1, z[0] % 32, [], maxout)
  }

  /** Where one capacity is enough for a stream, every smaller one is either enough, too, or is refused. */
  lemma {:induction false} SmallerCapacity(f: Format, z: seq<byte>, ip: nat, ctrl: byte, out: seq<byte>, maxout: nat,
                                           enough: nat)
    requires |out| <= maxout <= enough && Decode(f, z, ip, ctrl, out, enough).Done?
    ensures var whole := Decode(f, z, ip, ctrl, out, enough);
      Decode(f, z, ip, ctrl, out, maxout) == if |whole.data| <= maxout then whole else Rejected
    decreases |z| - ip
  {
    var p := f.read(z, ip, ctrl);
    if |out| + OpLen(p.op) <= maxout && p.next + f.stop <= |z| {
      SmallerCapacity(f, z, p.next + 1, z[p.next], Apply(p.op, out), maxout, enough);
    }
  }

  // ---------------------------------------------------------------- writing a list

  ghost function Width(p: seq<seq<byte>>, k: nat): (r: nat)
    requires k <= |p|
  {
    if k == 0 then 0 else Width(p, k - 1) + |p[k - 1]|
  }

  ghost function Joined(p: seq<seq<byte>>, k: nat): (r: seq<byte>)
    requires k <= |p|
    ensures |r| == Width(p, k)
  {
    if k == 0 then [] else Joined(p, k - 1) + p[k - 1]
  }

  lemma {:induction false} JoinedAgrees(p: seq<seq<byte>>, q: seq<seq<byte>>, k: nat)
    requires k <= |p| && k <= |q| && forall i :: 0 <= i < k ==> p[i] == q[i]
    ensures Joined(p, k) == Joined(q, k)
  {
    if k > 0 {
      JoinedAgrees(p, q, k - 1);
    }
  }

  ghost function Pieces(f: Format, ops: seq<Opcode>): (p: seq<seq<byte>>)
    ensures |p| == |ops| && forall i :: 0 <= i < |p| ==> p[i] == f.write(ops[i])
  {
    seq(|ops|, i requires 0 <= i < |ops| => f.write(ops[i]))
  }

  ghost function EncodeAll(f: Format, ops: seq<Opcode>): (r: seq<byte>) {
    Joined(Pieces(f, ops), |ops|)
  }

  ghost predicate AllExpressible(f: Format, ops: seq<Opcode>) {
    forall i :: 0 <= i < |ops| ==> f.expressible(ops[i])
  }

  lemma EncodeAppend(f: Format, ops: seq<Opcode>, op: Opcode)
    ensures AllExpressible(f, ops) && f.expressible(op) ==> AllExpressible(f, ops + [op])
    ensures EncodeAll(f, ops + [op]) == EncodeAll(f, ops) + f.write(op)
  {
    JoinedAgrees(Pieces(f, ops + [op]), Pieces(f, ops), |ops|);
  }

  // ---------------------------------------------------------------- positions

  ghost predicate Same(z: seq<byte>, pos: nat, e: seq<byte>, i: nat) {
    i < |e| && pos + i < |z| && z[pos + i] == e[i]
  }

  /** The bytes of `e` from index `from` on stand in `z` when `e` is laid at `pos`. */
  ghost predicate At(z: seq<byte>, pos: nat, e: seq<byte>, from: nat) {
    pos + |e| <= |z| && forall i :: from <= i < |e| ==> Same(z, pos, e, i)
  }

  lemma AppendedAt(a: seq<byte>, b: seq<byte>)
    ensures At(a + b, |a|, b, 0)
  {
    forall i | 0 <= i < |b| ensures Same(a + b, |a|, b, i) {
    }
  }

  lemma AppendKeepsAt(a: seq<byte>, b: seq<byte>, pos: nat, c: seq<byte>)
    requires At(a, pos, c, 0)
    ensures At(a + b, pos, c, 0)
  {
    forall i | 0 <= i < |c| ensures Same(a + b, pos, c, i) {
      assert Same(a, pos, c, i);
    }
  }

  lemma {:induction false} PieceAt(p: seq<seq<byte>>, k: nat, n: nat)
    requires k < n <= |p|
    ensures At(Joined(p, n), Width(p, k), p[k], 0)
    decreases n
  {
    if k + 1 == n {
      AppendedAt(Joined(p, k), p[k]);
    } else {
      PieceAt(p, k, n - 1);
      AppendKeepsAt(Joined(p, n - 1), p[n - 1], Width(p, k), p[k]);
    }
  }

  lemma {:induction false} WidthGrows(p: seq<seq<byte>>, k: nat, n: nat)
    requires k <= n <= |p| && forall i :: 0 <= i < |p| ==> |p[i]| >= 2
    ensures Width(p, k) + 2 * (n - k) <= Width(p, n)
    decreases n
  {
    if k < n {
      WidthGrows(p, k, n - 1);
    }
  }

  // ---------------------------------------------------------------- round trip

  /** The reader undoes the writer at this place of a stream. */
  ghost predicate ReadsBack(f: Format, z: seq<byte>, pos: nat, op: Opcode)
  {
    |f.write(op)| >= 2 && f.read(z, pos + 1, f.write(op)[0]) == Op(op, pos + |f.write(op)|)
  }

  /** The reader undoes the writer wherever an expressible opcode stands in a stream, as long as a
      match is not the very last thing in it. */
  ghost predicate Invertible(f: Format) {
    && 1 <= f.stop <= 2
    && (forall op :: f.expressible(op) ==> |f.write(op)| >= 2)
    && (forall z, pos: nat, op {:trigger ReadsBack(f, z, pos, op)} ::
          f.expressible(op) && At(z, pos, f.write(op), 1) && (op.Match? ==> pos + |f.write(op)| < |z|)
          ==> ReadsBack(f, z, pos, op))
  }

  /** The control byte that the decoder takes from position `at`: the tag bits of the very first are masked. */
  function Control(z: seq<byte>, at: nat): (r: byte)
    requires at < |z|
  {
    if at == 0 then z[0] % 32 else z[at]
  }

  /** `z` is the encoding of `ops` but for tag bits in its first byte, and the list ends with a literal. */
  ghost predicate Holds(f: Format, ops: seq<Opcode>, z: seq<byte>) {
    && AllExpressible(f, ops) && ops != [] && ops[|ops| - 1].Literal?
    && |z| == |EncodeAll(f, ops)| >= 1 && At(z, 0, EncodeAll(f, ops), 1)
    && z[0] % 32 == EncodeAll(f, ops)[0]
  }

  lemma AtThrough(z: seq<byte>, e: seq<byte>, pos: nat, c: seq<byte>)
    requires At(z, 0, e, 1) && |z| == |e| >= 1 && z[0] % 32 == e[0] && At(e, pos, c, 0) && |c| >= 1
    ensures At(z, pos, c, 1) && Control(z, pos) == c[0]
  {
    forall i | 0 <= i < |c| && pos + i >= 1 ensures Same(z, pos, c, i) {
      assert Same(e, pos, c, i) && Same(z, 0, e, pos + i);
    }
    assert Same(e, pos, c, 0);
    if pos > 0 {
      assert Same(z, pos, c, 0);
    }
  }

  /** Where opcode k starts in the encoding. */
  ghost function Offset(f: Format, ops: seq<Opcode>, k: nat): (r: nat)
    requires k <= |ops|
  {
    Width(Pieces(f, ops), k)
  }

  lemma ReadsOpcode(f: Format, ops: seq<Opcode>, z: seq<byte>, k: nat)
    requires Invertible(f) && Holds(f, ops, z) && k < |ops|
    ensures Offset(f, ops, k) + 2 <= Offset(f, ops, k + 1) <= |z|
    ensures f.read(z, Offset(f, ops, k) + 1, Control(z, Offset(f, ops, k))) == Op(ops[k], Offset(f, ops, k + 1))
  {
    var p := Pieces(f, ops);
    WidthGrows(p, k + 1, |p|);
    PieceAt(p, k, |p|);
    AtThrough(z, Joined(p, |p|), Width(p, k), p[k]);
    assert ReadsBack(f, z, Width(p, k), ops[k]);
  }

  /** The decoder about to take a control byte at `at`. */
  datatype State = State(at: nat, out: seq<byte>)

  ghost predicate Executes(f: Format, z: seq<byte>, maxout: nat, s: State, t: State, op: Opcode) {
    && s.at + 2 <= |z| && f.read(z, s.at + 1, Control(z, s.at)) == Op(op, t.at) && s.at + 1 <= t.at <= |z|
    && Fits(op, |s.out|) && Apply(op, s.out) == t.out && |t.out| <= maxout
  }

  /** The states between the opcodes of a complete decoding. */
  ghost predicate Trace(f: Format, z: seq<byte>, maxout: nat, ss: seq<State>, ops: seq<Opcode>) {
    && |ss| == |ops| + 1 >= 2 && ss[|ops|].at == |z| && 1 <= f.stop <= 2
    && (forall i :: 0 <= i < |ops| ==> Executes(f, z, maxout, ss[i], ss[i + 1], ops[i]))
  }

  /** One turn: the last, when it ends at the end of the stream, or one that another follows. */
  lemma DecodeTurn(f: Format, z: seq<byte>, maxout: nat, s: State, t: State, op: Opcode)
    requires Executes(f, z, maxout, s, t, op) && 1 <= f.stop <= 2 && (t.at == |z| || t.at + 2 <= |z|)
    ensures |s.out| <= maxout
    ensures Decode(f, z, s.at + 1, Control(z, s.at), s.out, maxout) ==
            if t.at == |z| then Done(t.out) else Decode(f, z, t.at + 1, Control(z, t.at), t.out, maxout)
  {
  }

  /** The decoder does what a trace of its turns says. */
  lemma {:induction false} DecodeFollows(f: Format, z: seq<byte>, maxout: nat, ss: seq<State>, ops: seq<Opcode>, k: nat)
    requires Trace(f, z, maxout, ss, ops) && k < |ops|
    ensures |ss[k].out| <= maxout && ss[k].at < |z|
    ensures Decode(f, z, ss[k].at + 1, Control(z, ss[k].at), ss[k].out, maxout) == Done(ss[|ops|].out)
    decreases |ops| - k
  {
    assert Executes(f, z, maxout, ss[k], ss[k + 1], ops[k]);
    if k + 1 < |ops| {
      assert Executes(f, z, maxout, ss[k + 1], ss[k + 2], ops[k + 1]);
      DecodeFollows(f, z, maxout, ss, ops, k + 1);
    }
    DecodeTurn(f, z, maxout, ss[k], ss[k + 1], ops[k]);
  }

  ghost function StateAt(f: Format, ops: seq<Opcode>, k: nat): (r: State)
    requires k <= |ops| && Runnable(ops, k)
  {
    State(Offset(f, ops, k), Expand(ops, k))
  }

  lemma ExecutesAt(f: Format, ops: seq<Opcode>, z: seq<byte>, maxout: nat, k: nat)
    requires Invertible(f) && Holds(f, ops, z) && k < |ops| && Runnable(ops, k + 1) && Len(ops, k + 1) <= maxout
    ensures Executes(f, z, maxout, StateAt(f, ops, k), StateAt(f, ops, k + 1), ops[k])
  {
    ReadsOpcode(f, ops, z, k);
  }

  lemma TraceOf(f: Format, ops: seq<Opcode>, z: seq<byte>, maxout: nat) returns (ss: seq<State>)
    requires Invertible(f) && Holds(f, ops, z) && Runnable(ops, |ops|) && Len(ops, |ops|) <= maxout
    ensures Trace(f, z, maxout, ss, ops)
    ensures ss[0] == State(0, []) && ss[|ops|].out == Expand(ops, |ops|)
  {
    forall i | 0 <= i <= |ops| ensures Runnable(ops, i) && Len(ops, i) <= maxout {
      RunnablePrefix(ops, i, |ops|);
    }
    ss := seq(|ops| + 1, i requires 0 <= i <= |ops| => StateAt(f, ops, i));
    forall i | 0 <= i < |ops| ensures Executes(f, z, maxout, ss[i], ss[i + 1], ops[i]) {
      ExecutesAt(f, ops, z, maxout, i);
    }
  }

  lemma DecodeStreamFollows(f: Format, z: seq<byte>, maxout: nat, ss: seq<State>, ops: seq<Opcode>)
    requires Trace(f, z, maxout, ss, ops) && ss[0] == State(0, []) && z != []
    ensures DecodeStream(f, z, maxout) == Done(ss[|ops|].out)
  {
    DecodeFollows(f, z, maxout, ss, ops, 0);
  }

  /** Whatever list of expressible opcodes ending with a literal is written, the decoder returns
      exactly its LZ77 meaning, for every sufficient capacity, whatever the tag bits, and refuses it for
      every other. */
  lemma RoundTrip(f: Format, ops: seq<Opcode>, z: seq<byte>, maxout: nat)
    requires Invertible(f) && Holds(f, ops, z) && Runnable(ops, |ops|)
    ensures DecodeStream(f, z, maxout) ==
            if |Expand(ops, |ops|)| <= maxout then Done(Expand(ops, |ops|)) else Rejected
  {
    var enough := Len(ops, |ops|) + maxout;
    var ss := TraceOf(f, ops, z, enough);
    DecodeStreamFollows(f, z, enough, ss, ops);
    SmallerCapacity(f, z, 1, z[0] % 32, [], maxout, enough);
  }
}
