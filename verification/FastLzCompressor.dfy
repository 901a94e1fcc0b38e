/** The two compressors, in place over byte buffers. */
module FastLzCompressor {
  import opened Common
  import opened Lz77
  import opened OpcodeStream
  import opened FastLzFormat

  const HASH_SIZE := 16384

  // ---------------------------------------------------------------- what has been written so far

  /** `out` is the encoding of `ops`, and `ops` stand for `src`. */
  ghost predicate Emitted(f: Format, out: seq<byte>, ops: seq<Opcode>, src: seq<byte>) {
    && AllExpressible(f, ops) && EncodeAll(f, ops) == out
    && Runnable(ops, |ops|) && Expand(ops, |ops|) == src
    && (ops != [] ==> ops[0].Literal?)
  }

  ghost predicate EndsLiteral(ops: seq<Opcode>) {
    ops != [] && ops[|ops| - 1].Literal?
  }

  lemma EmitOpcode(f: Format, out: seq<byte>, ops: seq<Opcode>, src: seq<byte>, op: Opcode)
    requires Emitted(f, out, ops, src) && f.expressible(op) && Fits(op, |src|)
    requires ops == [] ==> op.Literal?
    ensures Emitted(f, out + f.write(op), ops + [op], Apply(op, src))
  {
    EncodeAppend(f, ops, op);
    ExpandAppend(ops, op);
  }

  /** Bytes beyond the literal and match writers of a level are of no concern to the emitters. */
  ghost predicate WritesAs(f: Format, op: Opcode, bytes: seq<byte>) {
    f.expressible(op) && f.write(op) == bytes
  }

  ghost predicate WritesLiterals(f: Format) {
    forall d {:trigger WritesAs(f, Literal(d), WriteLiteral(d))} ::
      1 <= |d| <= MAX_COPY ==> WritesAs(f, Literal(d), WriteLiteral(d))
  }

  ghost predicate WritesMatches1(f: Format) {
    forall len: nat, dist: nat {:trigger WritesAs(f, Match(len, dist), WriteMatch1(len, dist))} ::
      Expressible1(Match(len, dist)) ==> WritesAs(f, Match(len, dist), WriteMatch1(len, dist))
  }

  ghost predicate WritesMatches2(f: Format) {
    forall len: nat, dist: nat {:trigger WritesAs(f, Match(len, dist), WriteMatch2(len, dist))} ::
      Expressible2(Match(len, dist)) ==> WritesAs(f, Match(len, dist), WriteMatch2(len, dist))
  }

  /** What is written for n literal bytes. */
  function LiteralCost(n: nat): (r: nat) { n + (n + 31) / 32 }

  lemma EmitLiteral(f: Format, out: seq<byte>, ops: seq<Opcode>, src: seq<byte>, d: seq<byte>, out': seq<byte>)
    requires WritesLiterals(f) && Emitted(f, out, ops, src) && 1 <= |d| <= MAX_COPY && out' == out + WriteLiteral(d)
    ensures Emitted(f, out', ops + [Literal(d)], src + d)
  {
    assert WritesAs(f, Literal(d), WriteLiteral(d));
    EmitOpcode(f, out, ops, src, Literal(d));
  }

  /** One literal chunk: its control byte and its bytes. */
  method Chunk(input: array<byte>, src: nat, count: nat, output: array<byte>, dest: nat)
    requires input != output && 1 <= count <= MAX_COPY && src + count <= input.Length
    requires dest + count + 1 <= output.Length
    modifies output
    ensures output[..dest + count + 1] == old(output[..dest]) + WriteLiteral(input[src..src + count])
  {
    output[dest] := count - 1;
    forall i | 0 <= i < count {
      output[dest + 1 + i] := input[src + i];
    }
    ghost var e := old(output[..dest]) + WriteLiteral(input[src..src + count]);
    forall i | 0 <= i < |e| ensures output[i] == e[i] {
    }
    assert output[..dest + count + 1] == e;
  }

  method EmitChunk(input: array<byte>, src: nat, count: nat, output: array<byte>, dest: nat,
                   ghost f: Format, ghost ops: seq<Opcode>) returns (ghost ops': seq<Opcode>)
    requires input != output && 1 <= count <= MAX_COPY && src + count <= input.Length
    requires dest + count + 1 <= output.Length
    requires WritesLiterals(f) && Emitted(f, output[..dest], ops, input[..src])
    modifies output
    ensures Emitted(f, output[..dest + count + 1], ops', input[..src + count])
    ensures EndsLiteral(ops')
  {
    ghost var out, d := output[..dest], input[src..src + count];
    Chunk(input, src, count, output, dest);
    assert input[..src] + d == input[..src + count];
    EmitLiteral(f, out, ops, input[..src], d, output[..dest + count + 1]);
    ops' := ops + [Literal(d)];
  }

  /** Literal runs: full chunks of 32, then a shorter one. */
  method Literals(runs: nat, src: nat, input: array<byte>, dest: nat, output: array<byte>,
                  ghost f: Format, ghost ops0: seq<Opcode>) returns (dest': nat, ghost ops: seq<Opcode>)
    requires input != output && src + runs <= input.Length && dest + LiteralCost(runs) <= output.Length
    requires WritesLiterals(f) && Emitted(f, output[..dest], ops0, input[..src])
    modifies output
    ensures dest' == dest + LiteralCost(runs)
    ensures Emitted(f, output[..dest'], ops, input[..src + runs])
    ensures if runs == 0 then ops == ops0 else EndsLiteral(ops)
  {
    var left: nat, from: nat := runs, src;
    dest', ops := dest, ops0;
    while left >= MAX_COPY
      invariant left <= runs && from == src + (runs - left) && dest' + LiteralCost(left) == dest + LiteralCost(runs)
      invariant Emitted(f, output[..dest'], ops, input[..from])
      invariant if left == runs then ops == ops0 else EndsLiteral(ops)
    {
      ops := EmitChunk(input, from, MAX_COPY, output, dest', f, ops);
      from := from + MAX_COPY;
      dest' := dest' + MAX_COPY + 1;
      left := left - MAX_COPY;
    }
    if left > 0 {
      ops := EmitChunk(input, from, left, output, dest', f, ops);
      dest' := dest' + left + 1;
    }
  }

  // ---------------------------------------------------------------- matches

  lemma EmitMatch1(f: Format, out: seq<byte>, ops: seq<Opcode>, src: seq<byte>, len: nat, dist: nat, out': seq<byte>)
    requires WritesMatches1(f) && Emitted(f, out, ops, src) && ops != []
    requires Expressible1(Match(len, dist)) && dist <= |src| && out' == out + WriteMatch1(len, dist)
    ensures Emitted(f, out', ops + [Match(len, dist)], CopyBack(src, dist, len))
  {
    assert WritesAs(f, Match(len, dist), WriteMatch1(len, dist));
    EmitOpcode(f, out, ops, src, Match(len, dist));
  }

  /** One level-1 match opcode for `len + 2` bytes. */
  method PutMatch1(len: nat, d: nat, op: nat, output: array<byte>) returns (op': nat)
    requires 1 <= len <= MAX_LEN - 2 && d < MAX_L1_DISTANCE && op + (if len < 7 then 2 else 3) <= output.Length
    modifies output
    ensures op' == op + (if len < 7 then 2 else 3)
    ensures output[..op'] == old(output[..op]) + WriteMatch1(len + 2, d + 1)
  {
    if len < 7 {
      output[op] := len * 32 + d / 256;
      output[op + 1] := d % 256;
      op' := op + 2;
    } else {
      output[op] := 7 * 32 + d / 256;
      output[op + 1] := len - 7;
      output[op + 2] := d % 256;
      op' := op + 3;
    }
  }

  /** ... which continues a match of which `done` bytes have already been written. */
  method PutPart1(len: nat, distance: nat, op: nat, output: array<byte>,
                  ghost f: Format, ghost ops0: seq<Opcode>, ghost src: seq<byte>, ghost done: nat)
      returns (op': nat, ghost ops: seq<Opcode>)
    requires 1 <= len <= MAX_LEN - 2 && 1 <= distance <= MAX_L1_DISTANCE && distance <= |src|
    requires op + len + 1 <= output.Length
    requires WritesMatches1(f) && Emitted(f, output[..op], ops0, CopyBack(src, distance, done)) && ops0 != []
    modifies output
    ensures op < op' <= op + len + 1 && op' <= op + 3
    ensures Emitted(f, output[..op'], ops, CopyBack(src, distance, done + (len + 2))) && ops != []
  {
    ghost var out, was := output[..op], CopyBack(src, distance, done);
    op' := PutMatch1(len, distance - 1, op, output);
    EmitMatch1(f, out, ops0, was, len + 2, distance, output[..op']);
    CopyBackSplit(src, distance, done, len + 2);
    ops := ops0 + [Match(len + 2, distance)];
  }

  lemma PartsIn(parts: nat, left: nat, len: nat)
    requires 262 * parts + left == len
    ensures parts <= len / 262
  {
  }

  /** A level-1 match of `len + 2` bytes: chunks of 262 bytes, then the rest. It is always at least
      one byte shorter than what it stands for. */
  method Match1(len: nat, distance: nat, op: nat, output: array<byte>,
                ghost f: Format, ghost ops0: seq<Opcode>, ghost src: seq<byte>)
      returns (op': nat, ghost ops: seq<Opcode>)
    requires 1 <= len && 1 <= distance <= MAX_L1_DISTANCE && distance <= |src| && op + len + 1 <= output.Length
    requires WritesMatches1(f) && Emitted(f, output[..op], ops0, src) && ops0 != []
    modifies output
    ensures op < op' <= op + len + 1 && op' <= op + 3 * (len / 262) + 3
    ensures Emitted(f, output[..op'], ops, CopyBack(src, distance, len + 2)) && ops != []
  {
    var left: nat := len;
    ghost var done: nat, parts: nat := 0, 0;
    op', ops := op, ops0;
    while left > MAX_LEN - 2
      invariant 1 <= left && done + left == len && done == 262 * parts && op <= op' <= op + 3 * parts
      invariant Emitted(f, output[..op'], ops, CopyBack(src, distance, done)) && ops != []
    {
      op', ops := PutPart1(MAX_LEN - 2 - 2, distance, op', output, f, ops, src, done);
      left, done := left - (MAX_LEN - 2), done + (MAX_LEN - 2 - 2 + 2);
      parts := parts + 1;
    }
    PartsIn(parts, left, len);
    ghost var whole := CopyBack(src, distance, len + 2);
    assert whole == CopyBack(src, distance, done + (left + 2));
    op', ops := PutPart1(left, distance, op', output, f, ops, src, done);
  }

  lemma EmitMatch2(f: Format, out: seq<byte>, ops: seq<Opcode>, src: seq<byte>, len: nat, dist: nat, out': seq<byte>)
    requires WritesMatches2(f) && Emitted(f, out, ops, src) && ops != []
    requires Expressible2(Match(len, dist)) && dist <= |src| && out' == out + WriteMatch2(len, dist)
    ensures Emitted(f, out', ops + [Match(len, dist)], CopyBack(src, dist, len))
  {
    assert WritesAs(f, Match(len, dist), WriteMatch2(len, dist));
    EmitOpcode(f, out, ops, src, Match(len, dist));
  }

  /** `for (len -= 7; len >= 255; len -= 255) *op++ = 255; *op++ = len;` */
  method PutChain(n: nat, op: nat, output: array<byte>) returns (op': nat)
    requires op + n / 255 + 1 <= output.Length
    modifies output
    ensures op' == op + n / 255 + 1 && output[..op'] == old(output[..op]) + Chain(n)
  {
    var left: nat := n;
    op' := op;
    while left >= 255
      invariant left <= n && op' + left / 255 == op + n / 255
      invariant output[..op'] + Chain(left) == old(output[..op]) + Chain(n)
    {
      ghost var out := output[..op'];
      output[op'] := 255;
      assert output[..op' + 1] + Chain(left - 255) == out + Chain(left);
      op' := op' + 1;
      left := left - 255;
    }
    ghost var out := output[..op'];
    output[op'] := left;
    op' := op' + 1;
    assert output[..op'] == out + Chain(left);
  }

  method PutTail(d: nat, op: nat, output: array<byte>) returns (op': nat)
    requires d < MAX_L2_DISTANCE + 65536 && op + |FarTail(d)| <= output.Length
    modifies output
    ensures op' == op + |FarTail(d)| && output[..op'] == old(output[..op]) + FarTail(d)
  {
    if d < MAX_L2_DISTANCE {
      output[op] := d % 256;
      op' := op + 1;
    } else {
      output[op] := 255;
      output[op + 1] := (d - MAX_L2_DISTANCE) / 256;
      output[op + 2] := (d - MAX_L2_DISTANCE) % 256;
      op' := op + 3;
    }
  }

  function ChainOf(len: nat): (r: seq<byte>) {
    if len < 7 then [] else Chain(len - 7)
  }

  method PutMatch2(len: nat, d: nat, op: nat, output: array<byte>) returns (op': nat)
    requires 1 <= len && d < MAX_L2_DISTANCE + 65536
    requires op + 1 + |ChainOf(len)| + |FarTail(d)| <= output.Length
    modifies output
    ensures op' == op + 1 + |ChainOf(len)| + |FarTail(d)|
    ensures output[..op'] == old(output[..op]) + WriteMatch2(len + 2, d + 1)
  {
    ghost var out := output[..op];
    output[op] := (if len < 7 then len else 7) * 32 + FarHigh(d);
    op' := op + 1;
    ghost var head := output[..op'];
    if len >= 7 {
      op' := PutChain(len - 7, op', output);
    }
    assert output[..op'] == head + ChainOf(len);
    op' := PutTail(d, op', output);
    JoinMatch2(out, head[op], ChainOf(len), FarTail(d), len, d);
    assert head == out + [head[op]];
  }

  lemma JoinMatch2(out: seq<byte>, c: byte, chain: seq<byte>, tail: seq<byte>, len: nat, d: nat)
    requires 1 <= len && d < MAX_L2_DISTANCE + 65536 && chain == ChainOf(len) && tail == FarTail(d)
    requires c == (if len < 7 then len else 7) * 32 + FarHigh(d)
    ensures out + [c] + chain + tail == out + WriteMatch2(len + 2, d + 1)
  {
    assert WriteMatch2(len + 2, d + 1) == [c] + (chain + tail);
  }

  /** A level-2 match of `len + 2` bytes. It is at least one byte shorter than what it stands for:
      a far one because the compressor asks it to be five bytes long. */
  method Match2(len: nat, distance: nat, op: nat, output: array<byte>,
                ghost f: Format, ghost ops0: seq<Opcode>, ghost src: seq<byte>)
      returns (op': nat, ghost ops: seq<Opcode>)
    requires 1 <= len && (distance > MAX_L2_DISTANCE ==> 3 <= len) && op + len + 1 <= output.Length
    requires 1 <= distance < MAX_FARDISTANCE && distance <= |src|
    requires WritesMatches2(f) && Emitted(f, output[..op], ops0, src) && ops0 != []
    modifies output
    ensures op < op' <= op + len + 1 && op' <= op + len / 255 + 5
    ensures Emitted(f, output[..op'], ops, CopyBack(src, distance, len + 2)) && ops != []
  {
    ghost var out := output[..op];
    op' := PutMatch2(len, distance - 1, op, output);
    EmitMatch2(f, out, ops0, src, len + 2, distance, output[..op']);
    ops := ops0 + [Match(len + 2, distance)];
  }

  // ---------------------------------------------------------------- searching

  ghost predicate SameByte(s: seq<byte>, p: nat, q: nat, i: nat) {
    p + i < |s| && q + i < |s| && s[p + i] == s[q + i]
  }

  /** The n bytes at p and at q are the same. */
  ghost predicate Agree(s: seq<byte>, p: nat, q: nat, n: nat) {
    forall i :: 0 <= i < n ==> SameByte(s, p, q, i)
  }

  /** No three bytes at which a match could be found, below this limit, stand earlier, too. */
  ghost predicate Unrepeated(s: seq<byte>, limit: int) {
    forall p: nat, q: nat :: p < q && 2 <= q < limit - 1 ==> !Agree(s, p, q, 3)
  }

  /** From the second byte on all are the same. */
  ghost predicate OneByte(s: seq<byte>, length: nat) {
    length <= |s| && forall i :: 2 <= i < length ==> s[i] == s[i - 1]
  }

  lemma {:induction false} OneByteSame(s: seq<byte>, length: nat, p: nat, q: nat)
    requires OneByte(s, length) && 1 <= p <= q < length
    ensures s[p] == s[q]
  {
    if p < q { OneByteSame(s, length, p, q - 1); }
  }

  lemma OneByteAgree(s: seq<byte>, length: nat, p: nat, q: nat, n: nat)
    requires OneByte(s, length) && 1 <= p <= q && q + n <= length
    ensures Agree(s, p, q, n)
  {
    forall i | 0 <= i < n ensures SameByte(s, p, q, i) { OneByteSame(s, length, p + i, q + i); }
  }

  /** How far the bytes at p and q agree, q staying below r; the first disagreeing byte counts. */
  method Cmp(input: array<byte>, p0: nat, q0: nat, r: nat) returns (n: nat)
    requires p0 <= q0 < r <= input.Length
    ensures 1 <= n <= r - q0
    ensures Agree(input[..], p0, q0, n - 1)
    ensures n < r - q0 ==> !SameByte(input[..], p0, q0, n - 1)
    ensures q0 + 3 <= r && input[p0] == input[q0] && input[p0 + 1] == input[q0 + 1] ==> n >= 3
  {
    var p, q := p0, q0;
    while q < r
      invariant q0 <= q <= r && p - p0 == q - q0
      invariant Agree(input[..], p0, q0, q - q0)
    {
      p, q := p + 1, q + 1;
      if input[p - 1] != input[q - 1] {
        assert !SameByte(input[..], p0, q0, q - 1 - q0);
        break;
      }
    }
    n := p - p0;
    if 1 <= n <= 2 && q0 + 3 <= r {
      assert !SameByte(input[..], p0, q0, n - 1);
    }
  }

  function ReadU32(a: array<byte>, p: nat): (r: nat)
    requires p + 4 <= a.Length
    reads a
  {
    a[p + 3] as nat * 0x100_0000 + a[p + 2] as nat * 0x1_0000 + a[p + 1] as nat * 0x100 + a[p]
  }

  lemma DropHighByte(high: nat, low: nat)
    requires low < 0x100_0000
    ensures (high * 0x100_0000 + low) % 0x100_0000 == low
  {
  }

  lemma ThreeBytes(a: byte, b: byte, c: byte, x: byte, y: byte, z: byte)
    requires c as nat * 0x1_0000 + b as nat * 0x100 + a == z as nat * 0x1_0000 + y as nat * 0x100 + x
    ensures a == x && b == y && c == z
  {
  }

  /** The three bytes at p, as a number. */
  function Seq3(a: array<byte>, p: nat): (v: nat)
    requires p + 4 <= a.Length
    reads a
    ensures v == a[p + 2] as nat * 0x1_0000 + a[p + 1] as nat * 0x100 + a[p] < 0x100_0000
  {
    DropHighByte(a[p + 3], a[p + 2] as nat * 0x1_0000 + a[p + 1] as nat * 0x100 + a[p]);
    ReadU32(a, p) % 0x100_0000
  }

  lemma Seq3Agree(a: array<byte>, p: nat, q: nat)
    requires p + 4 <= a.Length && q + 4 <= a.Length && Seq3(a, p) == Seq3(a, q)
    ensures Agree(a[..], p, q, 3)
  {
    ThreeBytes(a[p], a[p + 1], a[p + 2], a[q], a[q + 1], a[q + 2]);
    forall i | 0 <= i < 3 ensures SameByte(a[..], p, q, i) {
      if i == 0 {} else if i == 1 {} else {}
    }
  }

  function Word(s: seq<byte>, p: nat): (v: nat)
    requires p + 3 <= |s|
  {
    s[p] as nat + s[p + 1] as nat * 256 + s[p + 2] as nat * 65536
  }

  lemma AgreeWord(s: seq<byte>, p: nat, q: nat)
    requires Agree(s, p, q, 3)
    ensures p + 3 <= |s| && q + 3 <= |s| && Word(s, p) == Word(s, q)
  {
    assert SameByte(s, p, q, 0) && SameByte(s, p, q, 1) && SameByte(s, p, q, 2);
  }

  function Hash(v: nat): (h: nat)
    ensures h < HASH_SIZE
  {
    v * 2654435769 / 0x4_0000 % 0x1_0000_0000 % HASH_SIZE
  }

  ghost predicate Below(htab: array<nat>, bound: nat)
    reads htab
  {
    htab.Length == HASH_SIZE && forall h :: 0 <= h < HASH_SIZE ==> htab[h] < bound
  }

  /** `ref = htab[hash]; htab[hash] = ip;`. */
  method Exchange(htab: array<nat>, v: nat, ip: nat) returns (refpos: nat)
    requires Below(htab, ip)
    modifies htab
    ensures refpos < ip && Below(htab, ip + 1) && refpos == old(htab[Hash(v)])
    ensures htab[..] == old(htab[..])[Hash(v) := ip]
  {
    var h := Hash(v);
    refpos := htab[h];
    htab[h] := ip;
  }

  /** The three bytes at p and at q fall into the same of the 16384 buckets. */
  ghost predicate SameBucket(s: seq<byte>, p: nat, q: nat)
    requires p + 3 <= |s| && q + 3 <= |s|
  {
    var v, w := s[p] as nat + s[p + 1] as nat * 256 + s[p + 2] as nat * 65536,
                s[q] as nat + s[q + 1] as nat * 256 + s[q + 2] as nat * 65536;
    v * 2654435769 / 262144 % 16384 == w * 2654435769 / 262144 % 16384
  }

  lemma ModOfMod(x: nat)
    ensures x % 0x1_0000_0000 % 16384 == x % 16384
  {
    assert x == 16384 * (262144 * (x / 0x1_0000_0000)) + x % 0x1_0000_0000;
  }

  lemma SameBucketIs(s: seq<byte>, p: nat, q: nat)
    requires p + 3 <= |s| && q + 3 <= |s|
    ensures SameBucket(s, p, q) <==> Hash(Word(s, p)) == Hash(Word(s, q))
  {
    ModOfMod(Word(s, p) * 2654435769 / 0x4_0000);
    ModOfMod(Word(s, q) * 2654435769 / 0x4_0000);
  }

  /** Between the two positions no three bytes stand a second time, nearer than the largest distance, unless
      between the two places other bytes of the same bucket stand. */
  ghost predicate NoneMissed(s: seq<byte>, start: nat, end: int, maxDistance: nat) {
    forall p: nat, q: nat :: start <= p < q < end && q - p < maxDistance && Agree(s, p, q, 3) ==>
      q + 3 <= |s| && exists r: nat :: p < r < q && SameBucket(s, r, q)
  }

  /** The bucket of every position searched holds it or a later one. */
  ghost predicate Searched(table: seq<nat>, s: seq<byte>, start: nat, ip: nat) {
    && |table| == HASH_SIZE && ip + 2 <= |s|
    && forall p: nat :: start <= p < ip ==>
         var r := table[Hash(Word(s, p))]; p <= r < ip && Hash(Word(s, r)) == Hash(Word(s, p))
  }

  lemma SearchedNext(table: seq<nat>, s: seq<byte>, start: nat, ip: nat)
    requires Searched(table, s, start, ip) && start <= ip && ip + 3 <= |s|
    ensures Searched(table[Hash(Word(s, ip)) := ip], s, start, ip + 1)
  {
  }

  /** A position whose bucket's last one is too far away or other bytes is not a place missed. */
  lemma NotMissed(table: seq<nat>, s: seq<byte>, start: nat, ip: nat, maxDistance: nat)
    requires Searched(table, s, start, ip) && start <= ip && ip + 3 <= |s| && NoneMissed(s, start, ip, maxDistance)
    requires var r := table[Hash(Word(s, ip))]; r < ip && (ip - r >= maxDistance || Word(s, r) != Word(s, ip))
    ensures NoneMissed(s, start, ip + 1, maxDistance)
  {
    forall p: nat, q: nat | start <= p < q < ip + 1 && q - p < maxDistance && Agree(s, p, q, 3)
      ensures q + 3 <= |s| && exists r: nat :: p < r < q && SameBucket(s, r, q)
    {
      AgreeWord(s, p, q);
      if q == ip {
        var r := table[Hash(Word(s, ip))];
        SameBucketIs(s, r, ip);
        assert p < r < q;
      }
    }
  }

  lemma Seq3Word(a: array<byte>, p: nat)
    requires p + 4 <= a.Length
    ensures Seq3(a, p) == Word(a[..], p)
  {
  }

  /** The candidate search. It returns past the position it stopped at: either that is the limit,
      or the three bytes before it were found again at `refpos`, closer than the largest distance. It does not
      miss what can be found. */
  method Search(input: array<byte>, htab: array<nat>, start: nat, limit: nat, maxDistance: nat)
      returns (ip: nat, refpos: nat)
    requires 2 <= start < limit && limit + 4 <= input.Length && Below(htab, start) && maxDistance > 1
    modifies htab
    ensures start <= ip <= limit && Below(htab, ip + 1)
    ensures ip < limit ==> start < ip && refpos < ip - 1 && ip - 1 - refpos < maxDistance && Below(htab, ip)
    ensures ip < limit ==> Agree(input[..], refpos, ip - 1, 3) && !Unrepeated(input[..], limit)
    ensures NoneMissed(input[..], start, ip - 1, maxDistance)
  {
    ip := start;
    ghost var s := input[..];
    while true
      invariant start <= ip <= limit && Below(htab, ip) && Searched(htab[..], s, start, ip)
      invariant NoneMissed(s, start, ip, maxDistance)
      decreases limit - ip
    {
      ghost var table := htab[..];
      var sequence := Seq3(input, ip);
      refpos := Exchange(htab, sequence, ip);
      Seq3Word(input, ip);
      Seq3Word(input, refpos);
      SearchedNext(table, s, start, ip);
      var distance := ip - refpos;
      var cmp := if distance < maxDistance then Seq3(input, refpos) else 0x100_0000;
      if ip >= limit { break; }
      ip := ip + 1;
      if sequence == cmp {
        Seq3Agree(input, refpos, ip - 1);
        break;
      }
      NotMissed(table, s, start, ip - 1, maxDistance);
    }
  }

  /** In an input of one byte a search from the third byte on stops at once. */
  lemma StopsAtOnce(s: seq<byte>, length: nat, end: nat, maxDistance: nat)
    requires OneByte(s, length) && NoneMissed(s, 2, end, maxDistance) && maxDistance > 1 && end + 3 <= length
    ensures end <= 3
  {
    if end > 3 { OneByteAgree(s, length, 2, 3, 3); }
  }

  method FindMatch(input: array<byte>, htab: array<nat>, start: nat, limit: nat, maxDistance: nat)
      returns (ip: nat, refpos: nat)
    requires 2 <= start < limit && limit + 13 <= input.Length && Below(htab, start) && maxDistance > 1
    modifies htab
    ensures start <= ip <= limit && Below(htab, ip + 1)
    ensures ip < limit ==> start < ip && refpos < ip - 1 && ip - 1 - refpos < maxDistance && Below(htab, ip)
    ensures ip < limit ==> Agree(input[..], refpos, ip - 1, 3) && !Unrepeated(input[..], limit)
    ensures NoneMissed(input[..], start, ip - 1, maxDistance)
    ensures OneByte(input[..], limit + 13) && start == 2 ==> ip <= 4
  {
    ip, refpos := Search(input, htab, start, limit, maxDistance);
    if start == 2 && OneByte(input[..], limit + 13) { StopsAtOnce(input[..], limit + 13, ip - 1, maxDistance); }
  }

  lemma AgreeJoin(s: seq<byte>, p: nat, q: nat, a: nat, b: nat)
    requires Agree(s, p, q, a) && Agree(s, p + a, q + a, b)
    ensures Agree(s, p, q, a + b)
  {
    var pa, qa := p + a, q + a;
    forall i | 0 <= i < a + b ensures SameByte(s, p, q, i) {
      if i >= a {
        assert SameByte(s, pa, qa, i - a);
      }
    }
  }

  /** Copying back over bytes that agree reproduces the input. */
  lemma MatchExtends(s: seq<byte>, p: nat, q: nat, n: nat)
    requires p < q && q + n <= |s| && Agree(s, p, q, n)
    ensures CopyBack(s[..q], q - p, n) == s[..q + n]
  {
    var r := s[..q + n];
    forall i | q <= i < |r| ensures r[i] == r[i - (q - p)] {
      assert SameByte(s, p, q, i - q);
    }
    CopyBackUnique(s[..q], q - p, n, r);
  }

  // ---------------------------------------------------------------- level 1

  /** `htab[hash] = ip` for the position just behind a match and the one after it. */
  method UpdateHash(input: array<byte>, htab: array<nat>, ip: nat)
    requires ip + 4 <= input.Length && Below(htab, ip)
    modifies htab
    ensures Below(htab, ip + 2)
  {
    var sequence := ReadU32(input, ip);
    var _ := Exchange(htab, sequence % 0x100_0000, ip);
    var _ := Exchange(htab, sequence / 0x100, ip + 1);
  }

  /** The expansion bound, one step: a literal run costs at most one byte in 32 and one more, which
      the match behind it saves again. */
  lemma LiteralBound(op: nat, anchor: nat, ip: nat, length: nat)
    requires op <= anchor + anchor / 32 && anchor <= ip <= length
    ensures op + LiteralCost(ip - anchor) <= ip + ip / 32 + 1 <= length + length / 32 + 1
  {
  }

  /** The length of a match that agrees in three bytes, less two: it ends five bytes before the end at most. */
  method MatchLength(input: array<byte>, length: nat, ip: nat, refpos: nat) returns (len: nat)
    requires length <= input.Length && refpos < ip < length - 13 && Agree(input[..], refpos, ip, 3)
    ensures 1 <= len && ip + len + 2 <= length - 5
    ensures CopyBack(input[..ip], ip - refpos, len + 2) == input[..ip + len + 2]
    ensures input[refpos + 3] == input[ip + 3] && input[refpos + 4] == input[ip + 4] ==> len >= 3
    ensures OneByte(input[..], length) ==> ip + len + 2 == length - 5
  {
    len := Cmp(input, refpos + 3, ip + 3, length - 4);
    if OneByte(input[..], length) { OneByteAgree(input[..], length, refpos + 3, ip + 3, length - 7 - ip); }
    MatchAgrees(input[..], refpos, ip, len, length);
  }

  /** The literals that stand before a match. */
  method LiteralsBefore(input: array<byte>, length: nat, output: array<byte>, anchor: nat, ip: nat, op: nat,
                        ghost f: Format, ghost ops0: seq<Opcode>) returns (op': nat, ghost ops: seq<Opcode>)
    requires input != output && length <= input.Length && length + length / 32 + 1 <= output.Length
    requires anchor <= ip <= length && op <= anchor + anchor / 32 && (ops0 == [] ==> anchor < ip)
    requires WritesLiterals(f) && Emitted(f, output[..op], ops0, input[..anchor])
    modifies output
    ensures op' == op + LiteralCost(ip - anchor) <= ip + ip / 32 + 1
    ensures Emitted(f, output[..op'], ops, input[..ip]) && ops != []
  {
    LiteralBound(op, anchor, ip, length);
    op', ops := op, ops0;
    if ip > anchor {
      op', ops := Literals(ip - anchor, anchor, input, op', output, f, ops);
    }
  }

  method Extend1(input: array<byte>, length: nat, output: array<byte>, ip: nat, refpos: nat, op: nat,
                 ghost f: Format, ghost ops0: seq<Opcode>) returns (op': nat, len: nat, ghost ops: seq<Opcode>)
    requires input != output && length <= input.Length && length + length / 32 + 1 <= output.Length
    requires refpos < ip < length - 13 && ip - refpos < MAX_L1_DISTANCE && Agree(input[..], refpos, ip, 3)
    requires op <= ip + ip / 32 + 1 && ops0 != []
    requires WritesMatches1(f) && Emitted(f, output[..op], ops0, input[..ip])
    modifies output
    ensures 1 <= len && ip + len + 2 <= length - 5 && op' <= (ip + len + 2) + (ip + len + 2) / 32
    ensures Emitted(f, output[..op'], ops, input[..ip + len + 2]) && ops != []
    ensures OneByte(input[..], length) ==> ip + len + 2 == length - 5
    ensures op' <= op + 3 * (length / 262) + 3
  {
    len := MatchLength(input, length, ip, refpos);
    op', ops := Match1(len, ip - refpos, op, output, f, ops0, input[..ip]);
  }

  /** Literals up to `ip`, then the match found there, which agrees in three bytes with `refpos`; its end is
      put into the hash table. */
  method TakeMatch1(input: array<byte>, length: nat, output: array<byte>, htab: array<nat>, anchor: nat, ip: nat,
                    refpos: nat, op: nat, ghost f: Format, ghost ops0: seq<Opcode>)
      returns (op': nat, ip': nat, ghost ops: seq<Opcode>)
    requires input != output && length <= input.Length && length + length / 32 + 1 <= output.Length
    requires refpos < ip < length - 13 && ip - refpos < MAX_L1_DISTANCE && Agree(input[..], refpos, ip, 3)
    requires anchor <= ip && op <= anchor + anchor / 32 && (ops0 == [] ==> anchor < ip) && Below(htab, ip + 1)
    requires WritesLiterals(f) && WritesMatches1(f) && Emitted(f, output[..op], ops0, input[..anchor])
    modifies output, htab
    ensures ip + 3 <= ip' <= length - 5 && op' <= ip' + ip' / 32 && Below(htab, ip')
    ensures Emitted(f, output[..op'], ops, input[..ip']) && ops != []
    ensures OneByte(input[..], length) ==> ip' == length - 5
    ensures op == 0 && ip - anchor <= 3 ==> op' <= length / 64 + 26
  {
    var len;
    op', ops := LiteralsBefore(input, length, output, anchor, ip, op, f, ops0);
    op', len, ops := Extend1(input, length, output, ip, refpos, op', f, ops);
    UpdateHash(input, htab, ip + len);
    ip' := ip + len + 2;
  }

  lemma MatchAgrees(s: seq<byte>, refpos: nat, ip: nat, len: nat, length: nat)
    requires refpos < ip && 1 <= len && ip + len + 2 <= length <= |s|
    requires Agree(s, refpos, ip, 3) && Agree(s, refpos + 3, ip + 3, len - 1)
    ensures CopyBack(s[..ip], ip - refpos, len + 2) == s[..ip + len + 2]
  {
    AgreeJoin(s, refpos, ip, 3, len - 1);
    MatchExtends(s, refpos, ip, len + 2);
  }

  /** Where the loop over the input stands: what lies before `anchor` has been written. */
  ghost predicate Going(f: Format, out: seq<byte>, ops: seq<Opcode>, input: seq<byte>, length: nat, anchor: nat,
                        ip: nat) {
    && 2 <= ip && anchor <= ip && anchor <= length <= |input| && (anchor == 0 || anchor <= length - 3)
    && (ops == [] ==> anchor < ip) && |out| <= anchor + anchor / 32
    && Emitted(f, out, ops, input[..anchor])
    && (Unrepeated(input, length - 13) ==> anchor == |out| == 0)
    && (OneByte(input, length) ==>
          if anchor == 0 then |out| == 0 && (ip == 2 || length <= 17)
          else anchor == length - 5 && |out| <= length / 64 + 26)
  }

  /** One turn of the loop: a match is searched for and written, or there is none and the limit is reached. */
  method Round1(input: array<byte>, length: nat, output: array<byte>, htab: array<nat>, anchor0: nat, ip0: nat,
                op0: nat, ghost f: Format, ghost ops0: seq<Opcode>)
      returns (anchor: nat, ip: nat, op: nat, ghost ops: seq<Opcode>)
    requires input != output && length <= input.Length && length + length / 32 + 1 <= output.Length
    requires op0 <= output.Length && Going(f, output[..op0], ops0, input[..], length, anchor0, ip0)
    requires ip0 < length - 13 && Below(htab, ip0) && WritesLiterals(f) && WritesMatches1(f)
    modifies output, htab
    ensures op <= output.Length && Going(f, output[..op], ops, input[..], length, anchor, ip)
    ensures ip > ip0 && (ip < length - 13 ==> Below(htab, ip))
  {
    var refpos;
    anchor, op, ops := anchor0, op0, ops0;
    ip, refpos := FindMatch(input, htab, ip0, length - 12 - 1, MAX_L1_DISTANCE);
    if ip >= length - 13 { return; }
    ip := ip - 1;
    op, ip, ops := TakeMatch1(input, length, output, htab, anchor, ip, refpos, op, f, ops);
    anchor := ip;
  }

  method CompressLoop1(input: array<byte>, length: nat, output: array<byte>, ghost f: Format)
      returns (n: nat, ghost ops: seq<Opcode>)
    requires input != output && length <= input.Length && length + length / 32 + 1 <= output.Length
    requires WritesLiterals(f) && WritesMatches1(f)
    modifies output
    ensures n <= length + length / 32 + 1 && (length == 0 ==> n == 0)
    ensures Emitted(f, output[..n], ops, input[..length])
    ensures length > 0 ==> EndsLiteral(ops)
    ensures Unrepeated(input[..], length - 13) ==> n == LiteralCost(length)
    ensures OneByte(input[..], length) ==> n <= length / 64 + 32
  {
    var ipLimit: int := length - 12 - 1;
    var htab := new nat[HASH_SIZE](_ => 0);
    var anchor: nat, ip: nat, op: nat := 0, 2, 0;
    ops := [];
    assert Emitted(f, output[..op], ops, input[..anchor]);
    while ip < ipLimit
      invariant op <= output.Length && Going(f, output[..op], ops, input[..], length, anchor, ip)
      invariant fresh(htab) && (ip < ipLimit ==> Below(htab, ip))
      decreases length - ip
    {
      anchor, ip, op, ops := Round1(input, length, output, htab, anchor, ip, op, f, ops);
    }
    n, ops := Literals(length - anchor, anchor, input, op, output, f, ops);
  }

  // ---------------------------------------------------------------- level 2

  method Extend2(input: array<byte>, length: nat, output: array<byte>, ip: nat, refpos: nat, op: nat,
                 ghost f: Format, ghost ops0: seq<Opcode>) returns (op': nat, len: nat, ghost ops: seq<Opcode>)
    requires input != output && length <= input.Length && length + length / 32 + 1 <= output.Length
    requires refpos < ip < length - 13 && ip - refpos < MAX_FARDISTANCE && Agree(input[..], refpos, ip, 3)
    requires ip - refpos >= MAX_L2_DISTANCE ==> input[refpos + 3] == input[ip + 3] && input[refpos + 4] == input[ip + 4]
    requires op <= ip + ip / 32 + 1 && ops0 != []
    requires WritesMatches2(f) && Emitted(f, output[..op], ops0, input[..ip])
    modifies output
    ensures 1 <= len && ip + len + 2 <= length - 5 && op' <= (ip + len + 2) + (ip + len + 2) / 32
    ensures Emitted(f, output[..op'], ops, input[..ip + len + 2]) && ops != []
    ensures OneByte(input[..], length) ==> ip + len + 2 == length - 5
    ensures op' <= op + length / 255 + 5
  {
    len := MatchLength(input, length, ip, refpos);
    op', ops := Match2(len, ip - refpos, op, output, f, ops0, input[..ip]);
  }

  /** The same with a level-2 match: a far one agrees in five bytes. */
  method TakeMatch2(input: array<byte>, length: nat, output: array<byte>, htab: array<nat>, anchor: nat, ip: nat,
                    refpos: nat, op: nat, ghost f: Format, ghost ops0: seq<Opcode>)
      returns (op': nat, ip': nat, ghost ops: seq<Opcode>)
    requires input != output && length <= input.Length && length + length / 32 + 1 <= output.Length
    requires refpos < ip < length - 13 && ip - refpos < MAX_FARDISTANCE && Agree(input[..], refpos, ip, 3)
    requires ip - refpos >= MAX_L2_DISTANCE ==> input[refpos + 3] == input[ip + 3] && input[refpos + 4] == input[ip + 4]
    requires anchor <= ip && op <= anchor + anchor / 32 && (ops0 == [] ==> anchor < ip) && Below(htab, ip + 1)
    requires WritesLiterals(f) && WritesMatches2(f) && Emitted(f, output[..op], ops0, input[..anchor])
    modifies output, htab
    ensures ip + 3 <= ip' <= length - 5 && op' <= ip' + ip' / 32 && Below(htab, ip')
    ensures Emitted(f, output[..op'], ops, input[..ip']) && ops != []
    ensures OneByte(input[..], length) ==> ip' == length - 5
    ensures op == 0 && ip - anchor <= 3 ==> op' <= length / 64 + 26
  {
    var len;
    op', ops := LiteralsBefore(input, length, output, anchor, ip, op, f, ops0);
    op', len, ops := Extend2(input, length, output, ip, refpos, op', f, ops);
    UpdateHash(input, htab, ip + len);
    ip' := ip + len + 2;
  }

  /** The same at level 2, where a far match that does not agree in five bytes is passed over. */
  method Round2(input: array<byte>, length: nat, output: array<byte>, htab: array<nat>, anchor0: nat, ip0: nat,
                op0: nat, ghost f: Format, ghost ops0: seq<Opcode>)
      returns (anchor: nat, ip: nat, op: nat, ghost ops: seq<Opcode>)
    requires input != output && length <= input.Length && length + length / 32 + 1 <= output.Length
    requires op0 <= output.Length && Going(f, output[..op0], ops0, input[..], length, anchor0, ip0)
    requires ip0 < length - 13 && Below(htab, ip0) && WritesLiterals(f) && WritesMatches2(f)
    modifies output, htab
    ensures op <= output.Length && Going(f, output[..op], ops, input[..], length, anchor, ip)
    ensures ip > ip0 && (ip < length - 13 ==> Below(htab, ip))
  {
    var refpos;
    anchor, op, ops := anchor0, op0, ops0;
    ip, refpos := FindMatch(input, htab, ip0, length - 12 - 1, MAX_FARDISTANCE);
    if ip >= length - 13 { return; }
    ip := ip - 1;
    if ip - refpos >= MAX_L2_DISTANCE {
      if input[refpos + 3] != input[ip + 3] || input[refpos + 4] != input[ip + 4] {
        ip := ip + 1;
        return;
      }
    }
    op, ip, ops := TakeMatch2(input, length, output, htab, anchor, ip, refpos, op, f, ops);
    anchor := ip;
  }

  method CompressLoop2(input: array<byte>, length: nat, output: array<byte>, ghost f: Format)
      returns (n: nat, ghost ops: seq<Opcode>)
    requires input != output && length <= input.Length && length + length / 32 + 1 <= output.Length
    requires WritesLiterals(f) && WritesMatches2(f)
    modifies output
    ensures n <= length + length / 32 + 1 && (length == 0 ==> n == 0)
    ensures Emitted(f, output[..n], ops, input[..length])
    ensures length > 0 ==> EndsLiteral(ops)
    ensures Unrepeated(input[..], length - 13) ==> n == LiteralCost(length)
    ensures OneByte(input[..], length) ==> n <= length / 64 + 32
  {
    var ipLimit: int := length - 12 - 1;
    var htab := new nat[HASH_SIZE](_ => 0);
    var anchor: nat, ip: nat, op: nat := 0, 2, 0;
    ops := [];
    assert Emitted(f, output[..op], ops, input[..anchor]);
    while ip < ipLimit
      invariant op <= output.Length && Going(f, output[..op], ops, input[..], length, anchor, ip)
      invariant fresh(htab) && (ip < ipLimit ==> Below(htab, ip))
      decreases length - ip
    {
      anchor, ip, op, ops := Round2(input, length, output, htab, anchor, ip, op, f, ops);
    }
    n, ops := Literals(length - anchor, anchor, input, op, output, f, ops);
  }

  // ---------------------------------------------------------------- the compressors

  /** Every sufficient capacity makes the dispatching decoder return `src`, every other makes it refuse; it
      never asks for a byte behind `z`. */
  ghost predicate DecodesTo(z: seq<byte>, src: seq<byte>) {
    z != [] && forall maxout: nat :: Decompressed(z, maxout) == if |src| <= maxout then Done(src) else Rejected
  }

  lemma TaggedDecodes(f: Format, out: seq<byte>, ops: seq<Opcode>, src: seq<byte>)
    requires f == Level1() || f == Level2()
    requires Emitted(f, out, ops, src) && EndsLiteral(ops)
    ensures out != [] && out[0] < 32 && DecodesTo(Tagged(f, out), src)
    ensures forall maxout: nat :: DecodeStream(f, Tagged(f, out), maxout) ==
                                  if |src| <= maxout then Done(src) else Rejected
  {
    FormatRoundTrip(f, ops, |src|);
    forall maxout: nat
      ensures Decompressed(Tagged(f, out), maxout) == DecodeStream(f, Tagged(f, out), maxout)
              == if |src| <= maxout then Done(src) else Rejected
    {
      FormatRoundTrip(f, ops, maxout);
    }
  }

  lemma LevelsWrite()
    ensures WritesLiterals(Level1()) && WritesMatches1(Level1())
    ensures WritesLiterals(Level2()) && WritesMatches2(Level2())
  {
    forall d: seq<byte> | 1 <= |d| <= MAX_COPY
      ensures WritesAs(Level1(), Literal(d), WriteLiteral(d)) && WritesAs(Level2(), Literal(d), WriteLiteral(d))
    {
    }
    forall len: nat, dist: nat | Expressible1(Match(len, dist))
      ensures WritesAs(Level1(), Match(len, dist), WriteMatch1(len, dist))
    {
    }
    forall len: nat, dist: nat | Expressible2(Match(len, dist))
      ensures WritesAs(Level2(), Match(len, dist), WriteMatch2(len, dist))
    {
    }
  }

  method Compress1(input: array<byte>, length: nat, output: array<byte>) returns (n: nat)
    requires input != output && length <= input.Length && length + length / 32 + 1 <= output.Length
    modifies output
    ensures n <= length + length / 32 + 1
    ensures if length == 0 then n == 0 else DecodesTo(output[..n], input[..length]) && output[0] < 32
    ensures Unrepeated(input[..], length - 13) ==> n == LiteralCost(length)
    ensures OneByte(input[..], length) ==> n <= length / 64 + 32
  {
    LevelsWrite();
    ghost var ops;
    n, ops := CompressLoop1(input, length, output, Level1());
    if length > 0 {
      TaggedDecodes(Level1(), output[..n], ops, input[..length]);
    }
  }

  /** `b | (1 << 5)` on a byte. */
  function SetBit5(b: byte): (r: byte) {
    if b / 32 % 2 == 1 then b else b + 32
  }

  /** Level 2 sets its tag even for an empty input, whose output is empty. */
  method Compress2(input: array<byte>, length: nat, output: array<byte>) returns (n: nat)
    requires input != output && length <= input.Length && length + length / 32 + 1 <= output.Length
    modifies output
    ensures n <= length + length / 32 + 1
    ensures if length == 0 then n == 0 else DecodesTo(output[..n], input[..length]) && 32 <= output[0] < 64
    ensures Unrepeated(input[..], length - 13) ==> n == LiteralCost(length)
    ensures OneByte(input[..], length) ==> n <= length / 64 + 32
  {
    LevelsWrite();
    ghost var ops;
    n, ops := CompressLoop2(input, length, output, Level2());
    ghost var out := output[..n];
    output[0] := SetBit5(output[0]);
    if length > 0 {
      TaggedDecodes(Level2(), out, ops, input[..length]);
      assert output[..n] == Tagged(Level2(), out);
    }
  }

  /** Short blocks take level 1, blocks of 65536 bytes and more take level 2. Whatever the input,
      the result is at most a 32nd and one byte longer, and decompresses to the input; it is longer than
      the input by a 32nd, rounded up, where no three bytes in a row occur a second time. */
  method Compress(input: array<byte>, length: nat, output: array<byte>) returns (n: nat)
    requires input != output && length <= input.Length && length + length / 32 + 1 <= output.Length
    modifies output
    ensures n <= length + length / 32 + 1
    ensures length > 0 ==> DecodesTo(output[..n], input[..length])
    ensures length > 0 ==> (output[0] < 32 <==> length < 65536)
    ensures Unrepeated(input[..], length - 13) ==> n == LiteralCost(length)
    ensures OneByte(input[..], length) ==> n <= length / 64 + 32
  {
    if length < 65536 {
      n := Compress1(input, length, output);
    } else {
      n := Compress2(input, length, output);
    }
  }

  method CompressLevel(level: int, input: array<byte>, length: nat, output: array<byte>) returns (n: nat)
    requires input != output && length <= input.Length && length + length / 32 + 1 <= output.Length
    modifies output
    ensures n <= length + length / 32 + 1
    ensures level !in {1, 2} ==> n == 0
    ensures level in {1, 2} && length > 0 ==> DecodesTo(output[..n], input[..length])
    ensures level in {1, 2} && Unrepeated(input[..], length - 13) ==> n == LiteralCost(length)
    ensures OneByte(input[..], length) ==> n <= length / 64 + 32
  {
    if level == 1 {
      n := Compress1(input, length, output);
    } else if level == 2 {
      n := Compress2(input, length, output);
    } else {
      n := 0;
    }
  }
}
