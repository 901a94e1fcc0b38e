/** The two decoders, in place over byte buffers, on streams of arbitrary bytes. */
module FastLzDecoder {
  import opened Common
  import opened Lz77
  import opened OpcodeStream
  import opened FastLzFormat

  /** Copies within one buffer, forwards: block-wise when the regions are apart, byte by byte
      otherwise, so that an overlapping copy repeats what it has just written. */
  method Memmove(buf: array<byte>, dest: nat, src: nat, count: nat)
    requires src < dest && dest + count <= buf.Length
    modifies buf
    ensures buf[..dest + count] == CopyBack(old(buf[..dest]), dest - src, count)
    ensures forall k :: dest + count <= k < buf.Length ==> buf[k] == old(buf[k])
  {
    if count > 4 && dest >= src + count {
      MoveBlock(buf, dest, src, count);
    } else {
      ghost var out := buf[..dest];
      var i := 0;
      while i < count
        invariant 0 <= i <= count && buf[..dest + i] == CopyBack(out, dest - src, i)
        invariant forall k :: dest + i <= k < buf.Length ==> buf[k] == old(buf[k])
      {
        CopyByte(buf, dest + i, src + i, out, i);
        i := i + 1;
      }
    }
  }

  /** The library memmove, between regions that are apart. */
  method MoveBlock(buf: array<byte>, dest: nat, src: nat, count: nat)
    requires src + count <= dest && src < dest && dest + count <= buf.Length
    modifies buf
    ensures buf[..dest + count] == CopyBack(old(buf[..dest]), dest - src, count)
    ensures forall k :: dest + count <= k < buf.Length ==> buf[k] == old(buf[k])
  {
    ghost var out := buf[..dest];
    CopyBackApart(out, dest - src, count);
    forall i | 0 <= i < count {
      buf[dest + i] := buf[src + i];
    }
    assert buf[..dest + count] == out + out[src..src + count];
  }

  /** `*dest++ = *src++`, as the i-th byte of the copy that starts after `out`. */
  method CopyByte(buf: array<byte>, dest: nat, src: nat, ghost out: seq<byte>, ghost i: nat)
    requires src < dest < buf.Length && 1 <= dest - src <= |out| && dest == |out| + i
    requires buf[..dest] == CopyBack(out, dest - src, i)
    modifies buf
    ensures buf[..dest + 1] == CopyBack(out, dest - src, i + 1)
    ensures forall k :: dest < k < buf.Length ==> buf[k] == old(buf[k])
  {
    CopyBackNext(out, dest - src, i);
    buf[dest] := buf[src];
  }

  method Memcpy(output: array<byte>, op: nat, input: array<byte>, ip: nat, count: nat)
    requires input != output && op + count <= output.Length && ip + count <= input.Length
    modifies output
    ensures output[..op + count] == old(output[..op]) + input[ip..ip + count]
    ensures forall k :: op + count <= k < output.Length ==> output[k] == old(output[k])
  {
    forall i | 0 <= i < count {
      output[op + i] := input[ip + i];
    }
  }

  /** The end of a match turn, the same in both decoders: check the output bound and the
      reference, then copy. */
  method ExecuteMatch(output: array<byte>, op: nat, ref: int, len: nat, maxout: nat) returns (ok: bool)
    requires op <= maxout <= output.Length && ref < op
    modifies output
    ensures ok <==> op + len <= maxout && Fits(Match(len, op - ref), op)
    ensures ok ==> output[..op + len] == Apply(Match(len, op - ref), old(output[..op]))
    ensures forall k :: maxout <= k < output.Length ==> output[k] == old(output[k])
  {
    if op + len > maxout { return false; }
    if ref < 0 { return false; }
    Memmove(output, op, ref, len);
    return true;
  }

  /** A literal turn, the same in both decoders. */
  method ExecuteLiteral(input: array<byte>, ip: nat, length: nat, output: array<byte>, op: nat, maxout: nat, ctrl: byte)
      returns (ok: bool)
    requires input != output && ip <= length <= input.Length && op <= maxout <= output.Length
    modifies output
    ensures ok <==> ReadLiteral(input[..length], ip, ctrl).Op? && op + ctrl + 1 <= maxout
    ensures ok ==> ReadLiteral(input[..length], ip, ctrl).next == ip + ctrl + 1
    ensures ok ==> output[..op + ctrl + 1] == old(output[..op]) + ReadLiteral(input[..length], ip, ctrl).op.data
    ensures forall k :: maxout <= k < output.Length ==> output[k] == old(output[k])
  {
    var count := ctrl as int + 1;
    if op + count > maxout { return false; }
    if ip + count > length { return false; }
    Memcpy(output, op, input, ip, count);
    RunIsSlice(input[..length], ip, count);
    assert input[..length][ip..ip + count] == input[ip..ip + count];
    return true;
  }

  /** The opcode just read can be executed. */
  predicate Executable(p: Parsed, have: nat, maxout: nat) {
    p.Op? && Fits(p.op, have) && have + OpLen(p.op) <= maxout
  }

  /** One turn of the decoding function: another one follows, it was the last, it is refused. */
  lemma DecodeNext(f: Format, z: seq<byte>, ip: nat, ctrl: byte, out: seq<byte>, maxout: nat,
                   next: nat, ctrl': byte, out': seq<byte>)
    requires |out| <= maxout && Executable(f.read(z, ip, ctrl), |out|, maxout) && f.read(z, ip, ctrl).next == next
    requires f.stop >= 1 && ip <= next && next + f.stop <= |z|
    requires z[next] == ctrl' && out' == Apply(f.read(z, ip, ctrl).op, out)
    ensures Decode(f, z, ip, ctrl, out, maxout) == Decode(f, z, next + 1, ctrl', out', maxout)
  {
  }

  lemma DecodeLast(f: Format, z: seq<byte>, ip: nat, ctrl: byte, out: seq<byte>, maxout: nat, next: nat,
                   out': seq<byte>)
    requires |out| <= maxout && Executable(f.read(z, ip, ctrl), |out|, maxout) && f.read(z, ip, ctrl).next == next
    requires next + f.stop > |z| && out' == Apply(f.read(z, ip, ctrl).op, out)
    ensures Decode(f, z, ip, ctrl, out, maxout) == Done(out')
  {
  }

  lemma DecodeRefuses(f: Format, z: seq<byte>, ip: nat, ctrl: byte, out: seq<byte>, maxout: nat)
    requires |out| <= maxout && !Executable(f.read(z, ip, ctrl), |out|, maxout) && !f.read(z, ip, ctrl).Truncated?
    ensures Decode(f, z, ip, ctrl, out, maxout) == Rejected
  {
  }

  ghost predicate ReadsAs1(f: Format, z: seq<byte>, ip: nat, ctrl: byte) {
    f.read(z, ip, ctrl) == Read1(z, ip, ctrl)
  }

  /** A format whose reader is that of level 1. */
  ghost predicate IsLevel1(f: Format) {
    f.stop == 2 && forall z, ip: nat, ctrl {:trigger ReadsAs1(f, z, ip, ctrl)} :: ReadsAs1(f, z, ip, ctrl)
  }

  /** What one turn of a decoding loop does to the output: `p` is the opcode read at `ip0`. */
  twostate predicate TurnDone(output: array<byte>, op: nat, maxout: nat, ip0: nat, length: nat, p: Parsed,
                              ok: bool, ip: nat, len: nat)
    requires op <= maxout <= output.Length
    reads output
  {
    && !p.Truncated? && (ok <==> Executable(p, op, maxout))
    && (ok ==> ip0 < ip <= length && p.next == ip && 0 < len == OpLen(p.op))
    && (ok ==> output[..op + len] == Apply(p.op, old(output[..op])))
    && (forall k :: maxout <= k < output.Length ==> output[k] == old(output[k]))
  }

  /** The body of the level-1 decoding loop, up to taking the next control byte. */
  method Turn1(input: array<byte>, length: nat, output: array<byte>, maxout: nat, ip0: nat, op: nat, ctrl: byte,
               ghost f: Format)
      returns (ok: bool, ip: nat, len: nat)
    requires length <= input.Length && maxout <= output.Length && input != output && IsLevel1(f)
    requires ip0 <= length && op <= maxout && (ctrl < 32 || (ip0 < length && op > 0))
    modifies output
    ensures TurnDone(output, op, maxout, ip0, length, f.read(input[..length], ip0, ctrl), ok, ip, len)
  {
    assert ReadsAs1(f, input[..length], ip0, ctrl);
    ip := ip0;
    if ctrl >= 32 {
      len := ctrl / 32 - 1;
      var ofs := ctrl % 32 * 256;
      var ref := op - ofs - 1;
      if len == 6 {
        if ip > length - 2 { return false, ip, 0; }
        len := len + input[ip];
        ip := ip + 1;
      }
      ref := ref - input[ip] as int;
      ip := ip + 1;
      len := len + 3;
      assert Read1(input[..length], ip0, ctrl) == ReadMatch1(input[..length], ip0, ctrl / 32, ctrl % 32)
          == Op(Match(len, op - ref), ip);
      ok := ExecuteMatch(output, op, ref, len, maxout);
    } else {
      len := ctrl as int + 1;
      ok := ExecuteLiteral(input, ip, length, output, op, maxout, ctrl);
      ip := ip + len;
    }
  }

  method DecodeLoop1(input: array<byte>, length: nat, output: array<byte>, maxout: nat, ghost f: Format)
      returns (n: nat)
    requires 1 <= length <= input.Length && maxout <= output.Length && input != output && IsLevel1(f)
    modifies output
    ensures n <= maxout
    ensures DecodeStream(f, input[..length], maxout) == if n == 0 then Rejected else Done(output[..n])
    ensures forall k :: maxout <= k < output.Length ==> output[k] == old(output[k])
  {
    ghost var z := input[..length];
    var ip: nat, op: nat := 1, 0;
    var ctrl: byte := input[0] % 32;
    while true
      invariant 1 <= ip <= length && op <= maxout
      invariant ctrl < 32 || (ip < length && op > 0)
      invariant DecodeStream(f, z, maxout) == Decode(f, z, ip, ctrl, output[..op], maxout)
      invariant forall k :: maxout <= k < output.Length ==> output[k] == old(output[k])
      decreases length - ip
    {
      ghost var out := output[..op];
      var ok, ip', len := Turn1(input, length, output, maxout, ip, op, ctrl, f);
      if !ok {
        DecodeRefuses(f, z, ip, ctrl, out, maxout);
        return 0;
      }
      op := op + len;
      if ip' > length - 2 {
        DecodeLast(f, z, ip, ctrl, out, maxout, ip', output[..op]);
        return op;
      }
      DecodeNext(f, z, ip, ctrl, out, maxout, ip', input[ip'], output[..op]);
      ctrl := input[ip'];
      ip := ip' + 1;
    }
  }

  /** Level 1 in place. It never reads outside the first `length` input bytes nor writes outside
      the first `maxout` output bytes, whatever the input, and computes the decoding function. */
  method Decompress1(input: array<byte>, length: nat, output: array<byte>, maxout: nat) returns (n: nat)
    requires 1 <= length <= input.Length && maxout <= output.Length && input != output
    modifies output
    ensures n <= maxout
    ensures DecodeStream(Level1(), input[..length], maxout) == if n == 0 then Rejected else Done(output[..n])
    ensures forall k :: maxout <= k < output.Length ==> output[k] == old(output[k])
  {
    n := DecodeLoop1(input, length, output, maxout, Level1());
  }

  // ---------------------------------------------------------------- level 2

  ghost predicate ReadsAs2(f: Format, z: seq<byte>, ip: nat, ctrl: byte) {
    f.read(z, ip, ctrl) == Read2(z, ip, ctrl)
  }

  ghost predicate IsLevel2(f: Format) {
    f.stop == 1 && forall z, ip: nat, ctrl {:trigger ReadsAs2(f, z, ip, ctrl)} :: ReadsAs2(f, z, ip, ctrl)
  }

  /** The length bytes of a level-2 match: false when they run into the end of the input. */
  method LengthChain(input: array<byte>, length: nat, ip0: nat, len0: nat) returns (ok: bool, ip: nat, len: nat)
    requires length <= input.Length
    ensures ReadChain(input[..length], ip0, len0) == if ok then Op(Match(len, 0), ip) else Malformed
  {
    ip, len := ip0, len0;
    ghost var z := input[..length];
    while true
      invariant ip0 <= ip && (ip == ip0 || ip < length)
      invariant ReadChain(z, ip0, len0) == ReadChain(z, ip, len)
      decreases length - ip
    {
      if ip > length - 2 { return false, ip, len; }
      var code := input[ip];
      ip := ip + 1;
      len := len + code as int;
      if code != 255 { return true, ip, len; }
    }
  }

  /** The distance bytes of a level-2 match, from the code byte on: what `op - ref` becomes. */
  method Distance(input: array<byte>, length: nat, ip0: nat, ofs: nat, low: nat, ghost seen: nat, ghost len: nat)
      returns (ok: bool, ip: nat, dist: nat)
    requires ip0 < seen <= input.Length && ofs == low * 256 && seen == if ip0 == length then length + 1 else length
    ensures ReadDistance2(input[..seen], ip0, len, low) == if ok then Op(Match(len + 3, dist), ip) else Malformed
    ensures ok ==> ip0 < ip <= seen && dist >= 1
  {
    var code := input[ip0];
    ip := ip0 + 1;
    dist := ofs + 1 + code as int;
    if code == 255 && ofs == 31 * 256 {
      if !(ip < length - 2) { return false, ip, dist; }
      var far := input[ip] as int * 256;
      ip := ip + 1;
      far := far + input[ip] as int;
      ip := ip + 1;
      dist := far + MAX_L2_DISTANCE + 1;
    }
    ok := true;
  }

  /** On the control byte of a short match at the very end of the input the turn sees one byte more. */
  ghost function Seen(length: nat, ip: nat, ctrl: byte): (r: nat) {
    if ip == length && 32 <= ctrl < 224 then length + 1 else length
  }

  /** The bytes of a level-2 match: its length and its distance. */
  method MatchBytes(input: array<byte>, length: nat, ip0: nat, ctrl: byte)
      returns (ok: bool, ip: nat, len: nat, dist: nat)
    requires ip0 <= length && ctrl >= 32 && Seen(length, ip0, ctrl) <= input.Length
    ensures var p := ReadMatch2(input[..Seen(length, ip0, ctrl)], ip0, ctrl / 32, ctrl % 32);
      !p.Truncated? && if ok then p == Op(Match(len, dist), ip) && ip0 < ip <= Seen(length, ip0, ctrl) && dist > 0
                             else !p.Op?
  {
    ghost var seen := Seen(length, ip0, ctrl);
    ip, len, dist := ip0, ctrl / 32 - 1, 0;
    if len == 6 {
      ok, ip, len := LengthChain(input, length, ip, len);
      if !ok { return; }
    }
    ok, ip, dist := Distance(input, length, ip, ctrl % 32 * 256, ctrl % 32, seen, len);
    len := len + 3;
  }

  method Turn2(input: array<byte>, length: nat, output: array<byte>, maxout: nat, ip0: nat, op: nat, ctrl: byte,
               ghost f: Format)
      returns (ok: bool, ip: nat, len: nat)
    requires Seen(length, ip0, ctrl) <= input.Length && maxout <= output.Length && input != output && IsLevel2(f)
    requires ip0 <= length && op <= maxout && (ctrl < 32 || op > 0)
    modifies output
    ensures var seen := Seen(length, ip0, ctrl);
      TurnDone(output, op, maxout, ip0, seen, f.read(input[..seen], ip0, ctrl), ok, ip, len)
  {
    ghost var seen := Seen(length, ip0, ctrl);
    ghost var z := input[..seen];
    assert ReadsAs2(f, z, ip0, ctrl);
    ip := ip0;
    if ctrl >= 32 {
      var dist;
      ok, ip, len, dist := MatchBytes(input, length, ip0, ctrl);
      if !ok { return; }
      assert Read2(z, ip0, ctrl) == Op(Match(len, dist), ip);
      ok := ExecuteMatch(output, op, op - dist, len, maxout);
    } else {
      len := ctrl as int + 1;
      ok := ExecuteLiteral(input, ip, length, output, op, maxout, ctrl);
      ip := ip + len;
    }
  }

  /** Level-2 decoding by code that takes the byte `beyond` from behind the stream where the stream
      ends on the control byte of a short match. */
  function DecodePast(f: Format, z: seq<byte>, ip: nat, ctrl: byte, out: seq<byte>, maxout: nat, beyond: byte)
    : (r: Outcome)
    requires |out| <= maxout
    ensures r != Overread
    decreases |z| - ip
  {
    var p := f.read(z, ip, ctrl);
    if p.Truncated? then
      var q := f.read(z + [beyond], ip, ctrl);
      if Executable(q, |out|, maxout) then Done(Apply(q.op, out)) else Rejected
    else if !Executable(p, |out|, maxout) then Rejected
    else if p.next + f.stop > |z| then Done(Apply(p.op, out))
    else if p.next >= |z| || p.next < ip then Rejected
    else DecodePast(f, z, p.next + 1, z[p.next], Apply(p.op, out), maxout, beyond)
  }

  /** That byte makes no difference where the stream's own decoding does not ask for it. */
  lemma {:induction false} PastAgrees(f: Format, z: seq<byte>, ip: nat, ctrl: byte, out: seq<byte>, maxout: nat,
                                      beyond: byte)
    requires |out| <= maxout && Decode(f, z, ip, ctrl, out, maxout) != Overread
    ensures DecodePast(f, z, ip, ctrl, out, maxout, beyond) == Decode(f, z, ip, ctrl, out, maxout)
    decreases |z| - ip
  {
    var p := f.read(z, ip, ctrl);
    if Executable(p, |out|, maxout) && p.next + f.stop <= |z| && ip <= p.next < |z| {
      PastAgrees(f, z, p.next + 1, z[p.next], Apply(p.op, out), maxout, beyond);
    }
  }

  lemma PastNext(f: Format, z: seq<byte>, ip: nat, ctrl: byte, out: seq<byte>, maxout: nat, beyond: byte,
                 next: nat, ctrl': byte, out': seq<byte>)
    requires |out| <= maxout && Executable(f.read(z, ip, ctrl), |out|, maxout) && f.read(z, ip, ctrl).next == next
    requires f.stop >= 1 && ip <= next && next + f.stop <= |z|
    requires z[next] == ctrl' && out' == Apply(f.read(z, ip, ctrl).op, out)
    ensures DecodePast(f, z, ip, ctrl, out, maxout, beyond) == DecodePast(f, z, next + 1, ctrl', out', maxout, beyond)
  {
  }

  lemma PastLast(f: Format, z: seq<byte>, ip: nat, ctrl: byte, out: seq<byte>, maxout: nat, beyond: byte, next: nat,
                 out': seq<byte>)
    requires |out| <= maxout && Executable(f.read(z, ip, ctrl), |out|, maxout) && f.read(z, ip, ctrl).next == next
    requires next + f.stop > |z| && out' == Apply(f.read(z, ip, ctrl).op, out)
    ensures DecodePast(f, z, ip, ctrl, out, maxout, beyond) == Done(out')
  {
  }

  lemma PastRefuses(f: Format, z: seq<byte>, ip: nat, ctrl: byte, out: seq<byte>, maxout: nat, beyond: byte)
    requires |out| <= maxout && !Executable(f.read(z, ip, ctrl), |out|, maxout) && !f.read(z, ip, ctrl).Truncated?
    ensures DecodePast(f, z, ip, ctrl, out, maxout, beyond) == Rejected
  {
  }

  lemma PastTruncated(f: Format, z: seq<byte>, ip: nat, ctrl: byte, out: seq<byte>, maxout: nat, beyond: byte)
    requires |out| <= maxout && f.read(z, ip, ctrl).Truncated?
    ensures var q := f.read(z + [beyond], ip, ctrl);
      DecodePast(f, z, ip, ctrl, out, maxout, beyond)
      == if Executable(q, |out|, maxout) then Done(Apply(q.op, out)) else Rejected
  {
  }

  /** One byte more than there is, is asked for exactly by the control byte of a short match at the end. */
  lemma TruncatedExactly(f: Format, z: seq<byte>, ip: nat, ctrl: byte)
    requires IsLevel2(f) && ip <= |z|
    ensures f.read(z, ip, ctrl).Truncated? <==> Seen(|z|, ip, ctrl) == |z| + 1
  {
    assert ReadsAs2(f, z, ip, ctrl);
    if ctrl >= 32 { assert Read2(z, ip, ctrl) == ReadMatch2(z, ip, ctrl / 32, ctrl % 32); }
  }

  /** One turn of the loop, and what it leaves of the decoding: either it is over with result n, or it
      goes on with the next control byte. */
  method Step2(input: array<byte>, length: nat, output: array<byte>, maxout: nat, ip0: nat, op0: nat, ctrl0: byte,
               ghost f: Format, ghost beyond: byte)
      returns (over: bool, n: nat, ip: nat, op: nat, ctrl: byte)
    requires 1 <= ip0 <= length <= input.Length && op0 <= maxout <= output.Length && input != output && IsLevel2(f)
    requires ctrl0 < 32 || op0 > 0
    requires if length < input.Length then beyond == input[length]
             else Decode(f, input[..length], ip0, ctrl0, output[..op0], maxout) != Overread
    modifies output
    ensures forall k :: maxout <= k < output.Length ==> output[k] == old(output[k])
    ensures var r := DecodePast(f, old(input[..length]), ip0, ctrl0, old(output[..op0]), maxout, beyond);
      if over then n <= maxout && r == if n == 0 then Rejected else Done(output[..n])
      else ip0 < ip <= length && 0 < op <= maxout
           && r == DecodePast(f, input[..length], ip, ctrl, output[..op], maxout, beyond)
           && (length == input.Length ==> Decode(f, input[..length], ip, ctrl, output[..op], maxout) != Overread)
  {
    ghost var z, out := input[..length], output[..op0];
    TruncatedExactly(f, z, ip0, ctrl0);
    if Seen(length, ip0, ctrl0) == length + 1 {
      assert input[..length + 1] == z + [beyond];
    }
    ip, op, ctrl, over, n := ip0, op0, ctrl0, true, 0;
    var ok, ip', len := Turn2(input, length, output, maxout, ip0, op0, ctrl0, f);
    if Seen(length, ip0, ctrl0) == length + 1 {
      PastTruncated(f, z, ip0, ctrl0, out, maxout, beyond);
    } else if !ok {
      PastRefuses(f, z, ip0, ctrl0, out, maxout, beyond);
    } else if ip' >= length {
      PastLast(f, z, ip0, ctrl0, out, maxout, beyond, ip', output[..op + len]);
    }
    if !ok { return; }
    op := op + len;
    if ip' >= length {
      n := op;
      return;
    }
    PastNext(f, z, ip0, ctrl0, out, maxout, beyond, ip', input[ip'], output[..op]);
    DecodeNext(f, z, ip0, ctrl0, out, maxout, ip', input[ip'], output[..op]);
    ctrl := input[ip'];
    ip := ip' + 1;
    over := false;
  }

  method DecodeLoop2(input: array<byte>, length: nat, output: array<byte>, maxout: nat, ghost f: Format,
                     ghost beyond: byte)
      returns (n: nat)
    requires 1 <= length <= input.Length && maxout <= output.Length && input != output && IsLevel2(f)
    requires if length < input.Length then beyond == input[length]
             else DecodeStream(f, input[..length], maxout) != Overread
    modifies output
    ensures n <= maxout
    ensures DecodePast(f, input[..length], 1, input[0] % 32, [], maxout, beyond)
            == if n == 0 then Rejected else Done(output[..n])
    ensures forall k :: maxout <= k < output.Length ==> output[k] == old(output[k])
  {
    ghost var z := input[..length];
    var ip: nat, op: nat := 1, 0;
    var ctrl: byte := input[0] % 32;
    ghost var all := DecodePast(f, z, ip, ctrl, [], maxout, beyond);
    while true
      invariant 1 <= ip <= length && op <= maxout && z == input[..length]
      invariant ctrl < 32 || op > 0
      invariant all == DecodePast(f, z, ip, ctrl, output[..op], maxout, beyond)
      invariant length == input.Length ==> Decode(f, z, ip, ctrl, output[..op], maxout) != Overread
      invariant forall k :: maxout <= k < output.Length ==> output[k] == old(output[k])
      decreases length - ip
    {
      var over;
      over, n, ip, op, ctrl := Step2(input, length, output, maxout, ip, op, ctrl, f, beyond);
      if over { return; }
    }
  }

  /** Level 2 in place. Its short-match path takes the distance byte without a bound check, so where
      the decoding of the stream asks for a byte behind it (`OverreadExactly` says when) there must be
      one in memory; it then takes part in the result. `SafeLastByte` is the test for a caller. */
  method Decompress2(input: array<byte>, length: nat, output: array<byte>, maxout: nat) returns (n: nat)
    requires 1 <= length <= input.Length && maxout <= output.Length && input != output
    requires DecodeStream(Level2(), input[..length], maxout) == Overread ==> length < input.Length
    modifies output
    ensures n <= maxout
    ensures var r, z := if n == 0 then Rejected else Done(output[..n]), input[..length];
      if DecodeStream(Level2(), z, maxout) != Overread then DecodeStream(Level2(), z, maxout) == r
      else DecodePast(Level2(), input[..length], 1, input[0] % 32, [], maxout, input[length]) == r
    ensures forall k :: maxout <= k < output.Length ==> output[k] == old(output[k])
  {
    ghost var beyond: byte := if length < input.Length then input[length] else 0;
    n := DecodeLoop2(input, length, output, maxout, Level2(), beyond);
    ghost var z := input[..length];
    if DecodeStream(Level2(), z, maxout) != Overread {
      PastAgrees(Level2(), z, 1, z[0] % 32, [], maxout, beyond);
    }
  }

  /** The dispatching decoder. */
  method Decompress(input: array<byte>, length: nat, output: array<byte>, maxout: nat) returns (n: nat)
    requires 1 <= length <= input.Length && maxout <= output.Length && input != output
    requires Decompressed(input[..length], maxout) == Overread ==> length < input.Length
    modifies output
    ensures n <= maxout
    ensures var r := if n == 0 then Rejected else Done(output[..n]);
      if Decompressed(input[..length], maxout) != Overread then Decompressed(input[..length], maxout) == r
      else DecodePast(Level2(), input[..length], 1, input[0] % 32, [], maxout, input[length]) == r
    ensures forall k :: maxout <= k < output.Length ==> output[k] == old(output[k])
  {
    var level := input[0] / 32 + 1;
    if level == 1 {
      Level1StaysInside(input[..length], 1, input[0] % 32, [], maxout);
      n := Decompress1(input, length, output, maxout);
    } else if level == 2 {
      n := Decompress2(input, length, output, maxout);
    } else {
      n := 0;
    }
  }

  // ---------------------------------------------------------------- when the decoders stay in bounds

  /** Level 1 never wants a byte past the end. */
  lemma {:induction false} Level1StaysInside(z: seq<byte>, ip: nat, ctrl: byte, out: seq<byte>, maxout: nat)
    requires |out| <= maxout && (ctrl < 32 || ip < |z|)
    ensures Decode(Level1(), z, ip, ctrl, out, maxout) != Overread
    decreases |z| - ip
  {
    var p := Read1(z, ip, ctrl);
    if Executable(p, |out|, maxout) && ip <= p.next && p.next + 2 <= |z| {
      Level1StaysInside(z, p.next + 1, z[p.next], Apply(p.op, out), maxout);
    }
  }

  /** Where the walk over the opcodes that can be executed ends: the position behind the last control
      byte taken, and that byte. */
  function WalkEnd(f: Format, z: seq<byte>, ip: nat, ctrl: byte, out: seq<byte>, maxout: nat): (end: (nat, byte))
    requires |out| <= maxout
    decreases |z| - ip
  {
    var p := f.read(z, ip, ctrl);
    if Executable(p, |out|, maxout) && p.next + f.stop <= |z| && ip <= p.next < |z| then
      WalkEnd(f, z, p.next + 1, z[p.next], Apply(p.op, out), maxout)
    else (ip, ctrl)
  }

  /** Level 2 wants a byte past the end exactly when the walk ends at the end of the stream, on the
      control byte of a short match. */
  lemma {:induction false} OverreadExactly(f: Format, z: seq<byte>, ip: nat, ctrl: byte, out: seq<byte>, maxout: nat)
    requires IsLevel2(f) && |out| <= maxout && 1 <= ip <= |z|
    ensures Decode(f, z, ip, ctrl, out, maxout) == Overread
            <==> var (i, c) := WalkEnd(f, z, ip, ctrl, out, maxout); i == |z| && 32 <= c < 224
    decreases |z| - ip
  {
    var p := f.read(z, ip, ctrl);
    TruncatedExactly(f, z, ip, ctrl);
    if Executable(p, |out|, maxout) && p.next + f.stop <= |z| && ip <= p.next < |z| {
      OverreadExactly(f, z, p.next + 1, z[p.next], Apply(p.op, out), maxout);
    }
  }

  /** The walk takes its control bytes from the stream. */
  lemma {:induction false} WalkEndByte(f: Format, z: seq<byte>, ip: nat, ctrl: byte, out: seq<byte>, maxout: nat)
    requires |out| <= maxout && 1 <= ip <= |z| && (ctrl < 32 || ctrl == z[ip - 1])
    ensures var (i, c) := WalkEnd(f, z, ip, ctrl, out, maxout); ip <= i <= |z| && (c < 32 || c == z[i - 1])
    decreases |z| - ip
  {
    var p := f.read(z, ip, ctrl);
    if Executable(p, |out|, maxout) && p.next + f.stop <= |z| && ip <= p.next < |z| {
      WalkEndByte(f, z, p.next + 1, z[p.next], Apply(p.op, out), maxout);
    }
  }

  lemma LiteralThenControl(z: seq<byte>, b: byte, maxout: nat)
    requires maxout >= 1 && 32 <= b < 224 && |z| == 3 && z[1] == 7 && z[2] == b
    ensures Decode(Level2(), z, 1, 0, [], maxout) == Overread
  {
    assert Run(z, 1, 1) == [7];
    assert Level2().read(z, 1, 0) == Op(Literal([7]), 2);
    DecodeNext(Level2(), z, 1, 0, [], maxout, 2, b, [7]);
    TruncatedExactly(Level2(), z, 3, b);
  }

  /** A one-byte literal and then a lone control byte of a short match: level 2 reads on behind it. */
  lemma Level2Overreads(b: byte, maxout: nat)
    requires maxout >= 1 && 32 <= b < 224
    ensures DecodeStream(Level2(), [0, 7, b], maxout) == Overread && Decompressed([32, 7, b], maxout) == Overread
  {
    LiteralThenControl([0, 7, b], b, maxout);
    LiteralThenControl([32, 7, b], b, maxout);
  }

  lemma SafeStream(z: seq<byte>, maxout: nat)
    requires z != [] && !(32 <= z[|z| - 1] < 224)
    ensures DecodeStream(Level2(), z, maxout) != Overread
  {
    OverreadExactly(Level2(), z, 1, z[0] % 32, [], maxout);
    WalkEndByte(Level2(), z, 1, z[0] % 32, [], maxout);
  }

  /** What a caller can look at: level 2 stays inside on every stream with this last byte, whatever the
      capacity, exactly when the byte is not the control byte of a short match. */
  lemma SafeLastByte(b: byte)
    ensures (forall z: seq<byte>, maxout: nat {:trigger DecodeStream(Level2(), z, maxout)} ::
               z != [] && z[|z| - 1] == b ==> DecodeStream(Level2(), z, maxout) != Overread)
            <==> !(32 <= b < 224)
  {
    if 32 <= b < 224 {
      Level2Overreads(b, 1);
      var z: seq<byte> := [0, 7, b];
      assert z[|z| - 1] == b;
    } else {
      forall z: seq<byte>, maxout: nat | z != [] && z[|z| - 1] == b
        ensures DecodeStream(Level2(), z, maxout) != Overread
      {
        SafeStream(z, maxout);
      }
    }
  }
}
