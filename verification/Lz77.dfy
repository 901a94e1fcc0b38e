/** What a list of LZ77 opcodes means. */
module Lz77 {
  import opened Common

  /** A run of bytes copied from the stream, or `len` bytes copied from `dist` bytes back. */
  datatype Opcode = Literal(data: seq<byte>) | Match(len: nat, dist: nat)

  /** Copies `len` bytes one at a time, so that a copy longer than its distance repeats itself. */
  function CopyBack(out: seq<byte>, dist: nat, len: nat): (r: seq<byte>)
    requires 1 <= dist <= |out|
    ensures |r| == |out| + len
    decreases len
  {
    if len == 0 then out else CopyBack(out + [out[|out| - dist]], dist, len - 1)
  }

  /** `r` extends `out`, and every new byte repeats the one `dist` before it. */
  ghost predicate Repeats(out: seq<byte>, dist: nat, r: seq<byte>) {
    && 1 <= dist <= |out| && out <= r
    && forall i {:trigger r[i]} :: |out| <= i < |r| ==> r[i] == r[i - dist]
  }

  lemma {:induction false} CopyBackRepeats(out: seq<byte>, dist: nat, len: nat)
    requires 1 <= dist <= |out|
    ensures Repeats(out, dist, CopyBack(out, dist, len))
    decreases len
  {
    if len != 0 {
      var out' := out + [out[|out| - dist]];
      CopyBackRepeats(out', dist, len - 1);
    }
  }

  /** Repeating determines the copy. */
  lemma {:induction false} CopyBackUnique(out: seq<byte>, dist: nat, len: nat, r: seq<byte>)
    requires Repeats(out, dist, r) && |r| == |out| + len
    ensures r == CopyBack(out, dist, len)
    decreases len
  {
    if len != 0 {
      var out' := out + [out[|out| - dist]];
      assert r[|out|] == r[|out| - dist];
      CopyBackUnique(out', dist, len - 1, r);
    }
  }

  lemma RepeatsTransitive(out: seq<byte>, dist: nat, m: seq<byte>, r: seq<byte>)
    requires Repeats(out, dist, m) && Repeats(m, dist, r)
    ensures Repeats(out, dist, r)
  {
    forall i | |out| <= i < |r| ensures r[i] == r[i - dist] {
      if i < |m| {
        assert m[i] == m[i - dist];
      }
    }
  }

  lemma CopyBackSplit(out: seq<byte>, dist: nat, a: nat, b: nat)
    requires 1 <= dist <= |out|
    ensures CopyBack(CopyBack(out, dist, a), dist, b) == CopyBack(out, dist, a + b)
  {
    var m := CopyBack(out, dist, a);
    var r := CopyBack(m, dist, b);
    assert Repeats(out, dist, r) by {
      CopyBackRepeats(out, dist, a);
      CopyBackRepeats(m, dist, b);
      RepeatsTransitive(out, dist, m, r);
    }
    CopyBackUnique(out, dist, a + b, r);
  }

  /** One more byte of the same copy. */
  lemma CopyBackNext(out: seq<byte>, dist: nat, len: nat)
    requires 1 <= dist <= |out|
    ensures CopyBack(out, dist, len + 1) == CopyBack(out, dist, len) + [CopyBack(out, dist, len)[|out| + len - dist]]
  {
    CopyBackSplit(out, dist, len, 1);
  }

  /** A copy no longer than its distance is a plain block. */
  lemma CopyBackApart(out: seq<byte>, dist: nat, len: nat)
    requires 1 <= dist <= |out| && len <= dist
    ensures CopyBack(out, dist, len) == out + out[|out| - dist..|out| - dist + len]
  {
    var r := out + out[|out| - dist..|out| - dist + len];
    CopyBackUnique(out, dist, len, r);
  }

  function OpLen(op: Opcode): (r: nat) {
    match op case Literal(d) => |d| case Match(len, _) => len
  }

  predicate Fits(op: Opcode, have: nat) {
    op.Match? ==> 1 <= op.dist <= have
  }

  function Apply(op: Opcode, out: seq<byte>): (r: seq<byte>)
    requires Fits(op, |out|)
    ensures |r| == |out| + OpLen(op)
  {
    match op case Literal(d) => out + d case Match(len, dist) => CopyBack(out, dist, len)
  }

  /** The number of bytes the first k opcodes stand for. */
  ghost function Len(ops: seq<Opcode>, k: nat): (r: nat)
    requires k <= |ops|
  {
    if k == 0 then 0 else Len(ops, k - 1) + OpLen(ops[k - 1])
  }

  /** No match among the first k opcodes reaches back before the start of the output. */
  ghost predicate Runnable(ops: seq<Opcode>, k: nat)
    requires k <= |ops|
  {
    k == 0 || (Runnable(ops, k - 1) && Fits(ops[k - 1], Len(ops, k - 1)))
  }

  /** The plain LZ77 meaning of the first k opcodes. */
  ghost function Expand(ops: seq<Opcode>, k: nat): (r: seq<byte>)
    requires k <= |ops| && Runnable(ops, k)
    ensures |r| == Len(ops, k)
  {
    if k == 0 then [] else Apply(ops[k - 1], Expand(ops, k - 1))
  }

  lemma {:induction false} RunnablePrefix(ops: seq<Opcode>, k: nat, n: nat)
    requires k <= n <= |ops| && Runnable(ops, n)
    ensures Runnable(ops, k) && Len(ops, k) <= Len(ops, n)
    decreases n
  {
    if k < n {
      RunnablePrefix(ops, k, n - 1);
    }
  }

  lemma {:induction false} ExpandExtension(ops: seq<Opcode>, op: Opcode, k: nat)
    requires k <= |ops| && Runnable(ops, k)
    ensures Len(ops + [op], k) == Len(ops, k) && Runnable(ops + [op], k)
    ensures Expand(ops + [op], k) == Expand(ops, k)
  {
    if k > 0 {
      ExpandExtension(ops, op, k - 1);
    }
  }

  /** Appending one opcode applies it to what the list already stands for. */
  lemma ExpandAppend(ops: seq<Opcode>, op: Opcode)
    requires Runnable(ops, |ops|) && Fits(op, Len(ops, |ops|))
    ensures Runnable(ops + [op], |ops| + 1)
    ensures Expand(ops + [op], |ops| + 1) == Apply(op, Expand(ops, |ops|))
  {
    ExpandExtension(ops, op, |ops|);
  }
}
