/** The byte formats of FastLZ levels 1 and 2: how each writes an opcode, and how each decoder
    reads one from arbitrary bytes. */
module FastLzFormat {
  import opened Common
  import opened Lz77
  import opened OpcodeStream

  const MAX_COPY := 32
  const MAX_LEN := 264
  const MAX_L1_DISTANCE := 8192
  const MAX_L2_DISTANCE := 8191
  const MAX_FARDISTANCE := 65535 + MAX_L2_DISTANCE - 1

  // ---------------------------------------------------------------- writing

  predicate Expressible1(op: Opcode) {
    match op
    case Literal(d) => 1 <= |d| <= MAX_COPY
    case Match(len, dist) => 3 <= len <= MAX_LEN && 1 <= dist <= MAX_L1_DISTANCE
  }

  predicate Expressible2(op: Opcode) {
    match op
    case Literal(d) => 1 <= |d| <= MAX_COPY
    case Match(len, dist) => 3 <= len && 1 <= dist <= MAX_L2_DISTANCE + 65536
  }

  function WriteLiteral(d: seq<byte>): (r: seq<byte>)
    requires 1 <= |d| <= MAX_COPY
  {
    [|d| - 1] + d
  }

  /** The length field of the control byte: 7 stands for "more length bytes follow". */
  function Top(len: nat): (r: nat)
    requires len >= 3
    ensures 1 <= r <= 7
  {
    if len < 9 then len - 2 else 7
  }

  function WriteMatch1(len: nat, dist: nat): (r: seq<byte>)
    requires Expressible1(Match(len, dist))
  {
    var d := dist - 1;
    if len < 9 then [(len - 2) * 32 + d / 256, d % 256] else [7 * 32 + d / 256, len - 9, d % 256]
  }

  /** The length continuation bytes of level 2: as many 255s as fit, then the rest. */
  function Chain(n: nat): (r: seq<byte>)
    ensures |r| == n / 255 + 1
  {
    if n < 255 then [n] else [255] + Chain(n - 255)
  }

  /** Level 2: the low five control bits of distance d + 1, and its bytes after the length. */
  function FarHigh(d: nat): (r: nat)
    requires d < MAX_L2_DISTANCE + 65536
    ensures r < 32
  {
    if d < MAX_L2_DISTANCE then d / 256 else 31
  }

  function FarTail(d: nat): (r: seq<byte>)
    requires d < MAX_L2_DISTANCE + 65536
    ensures |r| == if d < MAX_L2_DISTANCE then 1 else 3
  {
    if d < MAX_L2_DISTANCE then [d % 256]
    else [255, (d - MAX_L2_DISTANCE) / 256, (d - MAX_L2_DISTANCE) % 256]
  }

  function WriteMatch2(len: nat, dist: nat): (r: seq<byte>)
    requires Expressible2(Match(len, dist))
  {
    [Top(len) * 32 + FarHigh(dist - 1)] + ((if len < 9 then [] else Chain(len - 9)) + FarTail(dist - 1))
  }

  function Write1(op: Opcode): (r: seq<byte>) {
    if !Expressible1(op) then []
    else if op.Literal? then WriteLiteral(op.data) else WriteMatch1(op.len, op.dist)
  }

  function Write2(op: Opcode): (r: seq<byte>) {
    if !Expressible2(op) then []
    else if op.Literal? then WriteLiteral(op.data) else WriteMatch2(op.len, op.dist)
  }

  // ---------------------------------------------------------------- reading

  /** The n bytes of `z` from `from` on. */
  function Run(z: seq<byte>, from: nat, n: nat): (r: seq<byte>)
    requires from + n <= |z|
    ensures |r| == n
  {
    if n == 0 then [] else Run(z, from, n - 1) + [z[from + n - 1]]
  }

  lemma {:induction false} RunIsSlice(z: seq<byte>, from: nat, n: nat)
    requires from + n <= |z|
    ensures Run(z, from, n) == z[from..from + n]
  {
    if n > 0 {
      RunIsSlice(z, from, n - 1);
      assert z[from..from + n] == z[from..from + n - 1] + [z[from + n - 1]];
    }
  }

  function ReadLiteral(z: seq<byte>, ip: nat, ctrl: byte): (r: Parsed) {
    if ip + ctrl + 1 > |z| then Malformed else Op(Literal(Run(z, ip, ctrl + 1)), ip + ctrl + 1)
  }

  /** A level-1 match with length field `top` and high distance bits `low`. */
  function ReadMatch1(z: seq<byte>, ip: nat, top: nat, low: nat): (r: Parsed)
    requires top >= 1
  {
    if top == 7 then
      if ip + 2 > |z| then Malformed
      else Op(Match(z[ip] as nat + 9, z[ip + 1] as nat + low * 256 + 1), ip + 2)
    else if ip >= |z| then Truncated
    else Op(Match(top + 2, z[ip] as nat + low * 256 + 1), ip + 1)
  }

  /** The length continuation loop of the level-2 decoder: the length, and where it ends. */
  function ReadChain(z: seq<byte>, ip: nat, len: nat): (r: Parsed)
    ensures !r.Truncated? && (r.Op? ==> r.op.Match? && ip < r.next < |z|)
    decreases |z| - ip
  {
    if ip + 2 > |z| then Malformed
    else if z[ip] == 255 then ReadChain(z, ip + 1, len + 255)
    else Op(Match(len + z[ip], 0), ip + 1)
  }

  /** The distance bytes of the level-2 decoder, once the length is known. */
  function ReadDistance2(z: seq<byte>, ip: nat, len: nat, low: nat): (r: Parsed) {
    if ip >= |z| then Truncated
    else if z[ip] == 255 && low == 31 then
      if ip + 3 >= |z| then Malformed
      else Op(Match(len + 3, z[ip + 1] * 256 + z[ip + 2] + MAX_L2_DISTANCE + 1), ip + 3)
    else Op(Match(len + 3, z[ip] as nat + low * 256 + 1), ip + 1)
  }

  function ReadMatch2(z: seq<byte>, ip: nat, top: nat, low: nat): (r: Parsed)
    requires top >= 1
  {
    if top == 7 then
      match ReadChain(z, ip, 6)
      case Op(m, next) => ReadDistance2(z, next, m.len, low)
      case bad => bad
    else ReadDistance2(z, ip, top - 1, low)
  }

  function Read1(z: seq<byte>, ip: nat, ctrl: byte): (r: Parsed) {
    if ctrl < 32 then ReadLiteral(z, ip, ctrl) else ReadMatch1(z, ip, ctrl / 32, ctrl % 32)
  }

  function Read2(z: seq<byte>, ip: nat, ctrl: byte): (r: Parsed) {
    if ctrl < 32 then ReadLiteral(z, ip, ctrl) else ReadMatch2(z, ip, ctrl / 32, ctrl % 32)
  }

  /** Level 1 stops as soon as fewer than two bytes are left, level 2 only at the very end. */
  function Level1(): (r: Format) { Format(Expressible1, Write1, Read1, 2) }

  function Level2(): (r: Format) { Format(Expressible2, Write2, Read2, 1) }

  /** The dispatching decoder: the tag bits choose the level, unknown tags are rejected. */
  function Decompressed(z: seq<byte>, maxout: nat): (r: Outcome)
    requires z != []
    ensures r.Done? ==> |r.data| <= maxout
  {
    if z[0] / 32 == 0 then DecodeStream(Level1(), z, maxout)
    else if z[0] / 32 == 1 then DecodeStream(Level2(), z, maxout)
    else Rejected
  }

  // ---------------------------------------------------------------- what the bytes mean, in numbers

  /** A literal run takes the next one to 32 bytes, and is refused where there are fewer. */
  lemma LiteralBytes(z: seq<byte>, ip: nat, ctrl: byte)
    requires ctrl < 32
    ensures Read1(z, ip, ctrl) == Read2(z, ip, ctrl)
            == if ip + ctrl + 1 <= |z| then Op(Literal(z[ip..ip + ctrl + 1]), ip + ctrl + 1) else Malformed
  {
    if ip + ctrl + 1 <= |z| { RunIsSlice(z, ip, ctrl + 1); }
  }

  /** Level 1: three bits of length, in a byte of its own from 9 on, and thirteen of distance, high bits first; a long
      match is refused where the two bytes are not there. */
  lemma Level1Bytes(z: seq<byte>, ip: nat, ctrl: byte)
    requires 32 <= ctrl
    ensures Read1(z, ip, ctrl) == if ctrl >= 224 then
                                    if ip + 2 > |z| then Malformed
                                    else Op(Match(z[ip] as nat + 9, (ctrl - 224) * 256 + z[ip + 1] as nat + 1), ip + 2)
                                  else if ip >= |z| then Truncated
                                  else Op(Match(ctrl / 32 + 2, ctrl % 32 * 256 + z[ip] + 1), ip + 1)
  {
  }

  /** Level 2: a distance that would read 8192 has 8192 added to the next sixteen bits instead, behind which a byte
      must follow. */
  lemma Level2Short(z: seq<byte>, ip: nat, ctrl: byte)
    requires 32 <= ctrl < 224
    ensures var len := ctrl / 32 + 2;
      Read2(z, ip, ctrl) == if ip >= |z| then Truncated
                            else if z[ip] == 255 && ctrl % 32 == 31 then
                              if ip + 3 >= |z| then Malformed
                              else Op(Match(len, 8192 + z[ip + 1] as nat * 256 + z[ip + 2] as nat), ip + 3)
                            else Op(Match(len, ctrl % 32 * 256 + z[ip] + 1), ip + 1)
  {
  }

  /** ... and k bytes of 255 and a smaller one make up a length from 9 on. */
  lemma Level2Bytes(z: seq<byte>, ip: nat, ctrl: byte, k: nat)
    requires ctrl >= 224 && ip + k + 1 < |z| && z[ip + k] < 255 && forall j :: ip <= j < ip + k ==> z[j] == 255
    ensures var len, c := 9 + 255 * k + z[ip + k], z[ip + k + 1];
      Read2(z, ip, ctrl) == if c == 255 && ctrl == 255 then
                              if ip + k + 4 >= |z| then Malformed
                              else Op(Match(len, 8192 + z[ip + k + 2] as nat * 256 + z[ip + k + 3] as nat), ip + k + 4)
                            else Op(Match(len, (ctrl - 224) * 256 + c + 1), ip + k + 2)
  {
    ChainBytes(z, ip, 6, k);
  }

  lemma {:induction false} ChainBytes(z: seq<byte>, ip: nat, len: nat, k: nat)
    requires ip + k + 1 < |z| && z[ip + k] < 255 && forall j :: ip <= j < ip + k ==> z[j] == 255
    ensures ReadChain(z, ip, len) == Op(Match(len + 255 * k + z[ip + k], 0), ip + k + 1)
    decreases k
  {
    if k > 0 { ChainBytes(z, ip + 1, len + 255, k - 1); }
  }

  /** A chain is refused where no smaller byte stands before the last one. */
  lemma {:induction false} OpenChain(z: seq<byte>, ip: nat, ctrl: byte)
    requires ctrl >= 224 && forall j :: ip <= j < |z| - 1 ==> z[j] == 255
    ensures Read2(z, ip, ctrl) == Malformed
  {
    NoChain(z, ip, 6);
  }

  lemma {:induction false} NoChain(z: seq<byte>, ip: nat, len: nat)
    requires forall j :: ip <= j < |z| - 1 ==> z[j] == 255
    ensures ReadChain(z, ip, len) == Malformed
    decreases |z| - ip
  {
    if ip + 2 <= |z| { NoChain(z, ip + 1, len + 255); }
  }

  /** The first byte's upper three bits choose the level. */
  lemma TagMeans(z: seq<byte>, maxout: nat)
    requires z != []
    ensures Decompressed(z, maxout) == if z[0] < 32 then DecodeStream(Level1(), z, maxout)
                                       else if z[0] < 64 then DecodeStream(Level2(), z, maxout) else Rejected
  {
  }

  // ---------------------------------------------------------------- reading undoes writing

  lemma AtSplit(z: seq<byte>, pos: nat, c: byte, a: seq<byte>, b: seq<byte>)
    requires At(z, pos, [c] + (a + b), 1)
    ensures At(z, pos + 1, a, 0) && At(z, pos + 1 + |a|, b, 0)
  {
    var e := [c] + (a + b);
    var pa, pb := pos + 1, pos + 1 + |a|;
    forall i | 0 <= i < |a| ensures Same(z, pa, a, i) {
      assert Same(z, pos, e, 1 + i);
    }
    forall i | 0 <= i < |b| ensures Same(z, pb, b, i) {
      assert Same(z, pos, e, 1 + |a| + i);
    }
  }

  lemma ReadLiteralInverse(z: seq<byte>, pos: nat, d: seq<byte>)
    requires 1 <= |d| <= MAX_COPY && At(z, pos, WriteLiteral(d), 1)
    ensures ReadLiteral(z, pos + 1, |d| - 1) == Op(Literal(d), pos + |WriteLiteral(d)|)
  {
    RunIsSlice(z, pos + 1, |d|);
    forall i | 0 <= i < |d| ensures z[pos + 1..pos + 1 + |d|][i] == d[i] {
      assert Same(z, pos, WriteLiteral(d), i + 1);
    }
    assert z[pos + 1..pos + 1 + |d|] == d;
  }

  lemma ReadMatch1Inverse(z: seq<byte>, pos: nat, len: nat, dist: nat)
    requires Expressible1(Match(len, dist)) && At(z, pos, WriteMatch1(len, dist), 1)
    ensures ReadMatch1(z, pos + 1, Top(len), (dist - 1) / 256) == Op(Match(len, dist), pos + |WriteMatch1(len, dist)|)
  {
    assert Same(z, pos, WriteMatch1(len, dist), 1);
    if len >= 9 {
      assert Same(z, pos, WriteMatch1(len, dist), 2);
    }
  }

  lemma {:induction false} ReadChainInverse(z: seq<byte>, ip: nat, len: nat, n: nat)
    requires At(z, ip, Chain(n), 0) && ip + |Chain(n)| < |z|
    ensures ReadChain(z, ip, len) == Op(Match(len + n, 0), ip + |Chain(n)|)
    decreases n
  {
    assert Same(z, ip, Chain(n), 0);
    if n >= 255 {
      var rest, next := Chain(n - 255), ip + 1;
      forall i | 0 <= i < |rest| ensures Same(z, next, rest, i) {
        assert Same(z, ip, Chain(n), i + 1);
      }
      ReadChainInverse(z, next, len + 255, n - 255);
    }
  }

  /** A far distance needs one more byte behind it, because the decoder's check there is
      `ip < ip_bound`; a near one never looks like the escape (31, 255). */
  lemma ReadDistance2Inverse(z: seq<byte>, ip: nat, len: nat, d: nat)
    requires d < MAX_L2_DISTANCE + 65536
    requires At(z, ip, FarTail(d), 0) && ip + |FarTail(d)| < |z|
    ensures ReadDistance2(z, ip, len, FarHigh(d)) == Op(Match(len + 3, d + 1), ip + |FarTail(d)|)
  {
    var t := FarTail(d);
    assert Same(z, ip, t, 0);
    if d >= MAX_L2_DISTANCE {
      assert Same(z, ip, t, 1) && Same(z, ip, t, 2);
    }
  }

  lemma ReadMatch2Inverse(z: seq<byte>, pos: nat, len: nat, dist: nat)
    requires Expressible2(Match(len, dist)) && At(z, pos, WriteMatch2(len, dist), 1)
    requires pos + |WriteMatch2(len, dist)| < |z|
    ensures ReadMatch2(z, pos + 1, Top(len), FarHigh(dist - 1)) == Op(Match(len, dist), pos + |WriteMatch2(len, dist)|)
  {
    var c := if len < 9 then [] else Chain(len - 9);
    AtSplit(z, pos, Top(len) * 32 + FarHigh(dist - 1), c, FarTail(dist - 1));
    ReadDistance2Inverse(z, pos + 1 + |c|, len - 3, dist - 1);
    if len >= 9 {
      ReadChainInverse(z, pos + 1, 6, len - 9);
    }
  }

  lemma ControlByte(top: nat, low: nat)
    requires 1 <= top <= 7 && low < 32
    ensures (top * 32 + low) / 32 == top && (top * 32 + low) % 32 == low && 32 <= top * 32 + low < 256
  {
  }

  lemma Level1Invertible()
    ensures Invertible(Level1())
  {
    var f := Level1();
    forall z, pos: nat, op | f.expressible(op) && At(z, pos, f.write(op), 1) ensures ReadsBack(f, z, pos, op) {
      match op
      case Literal(d) => ReadLiteralInverse(z, pos, d);
      case Match(len, dist) =>
        ControlByte(Top(len), (dist - 1) / 256);
        ReadMatch1Inverse(z, pos, len, dist);
    }
  }

  lemma Level2Invertible()
    ensures Invertible(Level2())
  {
    var f := Level2();
    forall z, pos: nat, op
      | f.expressible(op) && At(z, pos, f.write(op), 1) && (op.Match? ==> pos + |f.write(op)| < |z|)
      ensures ReadsBack(f, z, pos, op)
    {
      match op
      case Literal(d) => ReadLiteralInverse(z, pos, d);
      case Match(len, dist) =>
        ControlByte(Top(len), FarHigh(dist - 1));
        ReadMatch2Inverse(z, pos, len, dist);
    }
  }

  /** The level tag is the only difference between the encoding and what the compressor leaves. */
  ghost function Tagged(f: Format, e: seq<byte>): (r: seq<byte>)
    requires e != [] && e[0] < 32
  {
    if f.stop == 2 then e else e[0 := e[0] + 32]
  }

  lemma TagBits(b: byte)
    requires b < 32
    ensures b % 32 == b && b / 32 == 0 && (b + 32) % 32 == b && (b + 32) / 32 == 1
  {
  }

  lemma StartsLow(f: Format, ops: seq<Opcode>)
    requires f == Level1() || f == Level2()
    requires AllExpressible(f, ops) && ops != [] && ops[0].Literal?
    ensures EncodeAll(f, ops) != [] && EncodeAll(f, ops)[0] < 32
  {
    var p := Pieces(f, ops);
    PieceAt(p, 0, |p|);
    assert f.expressible(ops[0]);
    assert p[0] == WriteLiteral(ops[0].data);
    assert Same(Joined(p, |p|), 0, p[0], 0);
  }

  lemma TaggedHolds(f: Format, ops: seq<Opcode>)
    requires AllExpressible(f, ops) && ops != [] && ops[|ops| - 1].Literal?
    requires EncodeAll(f, ops) != [] && EncodeAll(f, ops)[0] < 32
    ensures Holds(f, ops, Tagged(f, EncodeAll(f, ops)))
    ensures Tagged(f, EncodeAll(f, ops))[0] / 32 == if f.stop == 2 then 0 else 1
  {
    var e := EncodeAll(f, ops);
    var z := Tagged(f, e);
    TagBits(e[0]);
    forall i | 1 <= i < |z| ensures Same(z, 0, e, i) {
    }
  }

  /** Whatever list of expressible opcodes is written, provided it starts and ends with a literal,
      the dispatching decoder returns exactly its LZ77 meaning, for every sufficient capacity, and
      refuses it for every other. */
  lemma FormatRoundTrip(f: Format, ops: seq<Opcode>, maxout: nat)
    requires f == Level1() || f == Level2()
    requires AllExpressible(f, ops) && Runnable(ops, |ops|) && ops != []
    requires ops[0].Literal? && ops[|ops| - 1].Literal?
    ensures EncodeAll(f, ops) != [] && EncodeAll(f, ops)[0] < 32
    ensures Decompressed(Tagged(f, EncodeAll(f, ops)), maxout)
            == DecodeStream(f, Tagged(f, EncodeAll(f, ops)), maxout)
            == if |Expand(ops, |ops|)| <= maxout then Done(Expand(ops, |ops|)) else Rejected
  {
    Level1Invertible();
    Level2Invertible();
    StartsLow(f, ops);
    TaggedHolds(f, ops);
    RoundTrip(f, ops, Tagged(f, EncodeAll(f, ops)), maxout);
  }
}
