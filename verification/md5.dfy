/** deps/common/math/md5.cpp: the streaming side of RFC 1321. The block transform is a parameter. */
module Md5 {
  import opened Common

  const TWO_32: nat := 0x1_0000_0000
  const TWO_64: nat := 0x1_0000_0000_0000_0000

  type Word = x: int | 0 <= x < 0x1_0000_0000
  type State = s: seq<Word> | |s| == 4 witness [0, 0, 0, 0]
  type Transform = (State, seq<Byte>) -> State

  const INITIAL: State := [0x67452301, 0xefcdab89, 0x98badcfe, 0x10325476]

  // ----- The reference: sections 3.1 to 3.5 of RFC 1321 on a whole message

  /** Section 3.4: the 64-byte blocks of the message in turn; a last incomplete block is left out. */
  function Chain(f: Transform, s: State, m: seq<Byte>): State
    decreases |m|
  {
    if |m| < 64 then s else Chain(f, f(s, m[..64]), m[64..])
  }

  /** Section 3.1: a 1 bit and then 0 bits, at least one byte, until 8 bytes are missing. */
  function PadLength(n: nat): nat {
    1 + (119 - n % 64) % 64
  }

  /** Section 3.2: the low-order byte first. */
  function LittleEndian(v: nat, n: nat): (b: seq<Byte>)
    ensures |b| == n
  {
    if n == 0 then [] else [v % 256] + LittleEndian(v / 256, n - 1)
  }

  /** The first bytes of the constant `PADDING`. */
  function Padding(n: nat): (p: seq<Byte>)
    ensures |p| == n
  {
    seq(n, i => if i == 0 then 0x80 else 0)
  }

  function Padded(m: seq<Byte>): seq<Byte> {
    m + Padding(PadLength(|m|)) + LittleEndian(8 * |m| % TWO_64, 8)
  }

  function Bytes(w: Word): (b: seq<Byte>)
    ensures |b| == 4
  {
    [w % 256, w / 0x100 % 256, w / 0x10000 % 256, w / 0x1000000 % 256]
  }

  function Encoded(ws: seq<Word>): (b: seq<Byte>)
    ensures |b| == 4 * |ws|
  {
    if ws == [] then [] else Bytes(ws[0]) + Encoded(ws[1..])
  }

  function WordOf(b: seq<Byte>): Word
    requires |b| == 4
  {
    b[0] as int + 0x100 * b[1] as int + 0x10000 * b[2] as int + 0x1000000 * b[3] as int
  }

  function Decoded(b: seq<Byte>): (ws: seq<Word>)
    requires |b| % 4 == 0
    ensures |ws| == |b| / 4
  {
    if b == [] then [] else [WordOf(b[..4])] + Decoded(b[4..])
  }

  /** The digest of a message. */
  function Digest(f: Transform, m: seq<Byte>): seq<Byte> {
    Encoded(Chain(f, INITIAL, Padded(m)))
  }

  // ----- About the reference

  /** Section 3.3: the initial words, given low-order byte first. */
  lemma InitialBytes()
    ensures INITIAL == [WordOf([0x01, 0x23, 0x45, 0x67]), WordOf([0x89, 0xab, 0xcd, 0xef]),
                        WordOf([0xfe, 0xdc, 0xba, 0x98]), WordOf([0x76, 0x54, 0x32, 0x10])]
  {
  }

  /** Bit `k` of a byte, the lowest first. */
  function Bit(b: Byte, k: nat): nat {
    if k == 0 then b % 2 else Bit(b / 2, k - 1)
  }

  lemma {:induction false} ZeroBits(k: nat)
    ensures Bit(0, k) == 0
  {
    if k > 0 {
      ZeroBits(k - 1);
    }
  }

  lemma HighBit(k: nat)
    requires k < 8
    ensures Bit(0x80, k) == if k == 7 then 1 else 0
  {
    assert Bit(0x80, 0) == Bit(0x80, 1) == Bit(0x80, 2) == Bit(0x80, 3) == 0;
    assert Bit(0x80, 4) == Bit(0x80, 5) == Bit(0x80, 6) == 0 && Bit(0x80, 7) == 1;
  }

  /** Section 3.1: the padding is the bit 1, the highest of the first byte, and then bits 0. */
  lemma PaddingBits(n: nat, i: nat, k: nat)
    requires i < n && k < 8
    ensures Bit(Padding(n)[i], 7 - k) == if 8 * i + k == 0 then 1 else 0
  {
    HighBit(7 - k);
    ZeroBits(7 - k);
  }

  /** The padding of section 3.1 is the one length from 1 to 64 that leaves room for the count. */
  lemma PadLengthExact(n: nat, p: nat)
    ensures 1 <= p <= 64 && (n + p) % 64 == 56 <==> p == PadLength(n)
  {
    var r := n % 64;
    assert (n + p) % 64 == (r + p) % 64;
  }

  lemma PaddedIsWhole(m: seq<Byte>)
    ensures |Padded(m)| % 64 == 0 && |m| + 9 <= |Padded(m)| <= |m| + 72
  {
    PadLengthExact(|m|, PadLength(|m|));
    hide PadLength, LittleEndian, Padding;
    assert (|m| + PadLength(|m|) + 8) % 64 == 0;
  }

  lemma {:induction false} ChainConcat(f: Transform, s: State, a: seq<Byte>, b: seq<Byte>)
    requires |a| % 64 == 0
    ensures Chain(f, s, a + b) == Chain(f, Chain(f, s, a), b)
    decreases |a|
  {
    if a == [] {
      assert a + b == b;
    } else {
      assert (a + b)[..64] == a[..64] && (a + b)[64..] == a[64..] + b;
      ChainConcat(f, f(s, a[..64]), a[64..], b);
    }
  }

  function Rest(m: seq<Byte>): (r: seq<Byte>)
    ensures |r| == |m| % 64
  {
    m[|m| - |m| % 64..]
  }

  function Whole(m: seq<Byte>): (w: seq<Byte>)
    ensures |w| % 64 == 0 && w + Rest(m) == m
  {
    m[..|m| - |m| % 64]
  }

  lemma ChainWhole(f: Transform, s: State, m: seq<Byte>)
    ensures Chain(f, s, m) == Chain(f, s, Whole(m))
  {
    ChainConcat(f, s, Whole(m), Rest(m));
  }

  /** More input: the chain goes on from the rest, and so does what is left over. */
  lemma ChainContinues(f: Transform, s: State, m: seq<Byte>, input: seq<Byte>)
    ensures Chain(f, s, m + input) == Chain(f, Chain(f, s, m), Rest(m) + input)
    ensures Rest(m + input) == Rest(Rest(m) + input)
  {
    var w, r := Whole(m), Rest(m);
    ChainWhole(f, s, m);
    assert m + input == w + (r + input);
    ChainConcat(f, s, w, r + input);
    assert |m + input| == |w| + |r + input| && |m + input| % 64 == |r + input| % 64;
  }

  lemma {:induction false} DecodeEncode(ws: seq<Word>)
    ensures Decoded(Encoded(ws)) == ws
  {
    if ws != [] {
      var e := Encoded(ws);
      assert e[..4] == Bytes(ws[0]) && e[4..] == Encoded(ws[1..]);
      WordOfBytes(ws[0]);
      DecodeEncode(ws[1..]);
    }
  }

  lemma WordOfBytes(w: Word)
    ensures WordOf(Bytes(w)) == w
  {
    assert w / 0x10000 == w / 0x100 / 0x100;
    assert w / 0x1000000 == w / 0x10000 / 0x100 < 256;
  }

  lemma {:induction false} EncodeDecode(b: seq<Byte>)
    requires |b| % 4 == 0
    ensures Encoded(Decoded(b)) == b
    decreases |b|
  {
    if b != [] {
      BytesOfWord(b[..4]);
      EncodeDecode(b[4..]);
      assert b == b[..4] + b[4..];
      assert Decoded(b)[1..] == Decoded(b[4..]);
    }
  }

  lemma BytesOfWord(b: seq<Byte>)
    requires |b| == 4
    ensures Bytes(WordOf(b)) == b
  {
    var w := WordOf(b);
    var high: int, higher: int := b[2] as int + 0x100 * b[3] as int, b[3];
    assert w == b[0] as int + 0x100 * (b[1] as int + 0x100 * high);
    assert w / 0x100 == b[1] as int + 0x100 * high;
    assert w / 0x10000 == w / 0x100 / 0x100 == high;
    assert w / 0x1000000 == w / 0x10000 / 0x100 == higher;
  }

  // ----- The count in two words

  ghost predicate Counts(count0: Word, count1: Word, n: nat) {
    count0 + TWO_32 * count1 == 8 * n % TWO_64
  }

  /** The two additions with carry of `MD5Update`. */
  lemma CountAdds(count0: Word, count1: Word, n: nat, len: Word)
    requires Counts(count0, count1, n)
    ensures
      var low := 8 * len % TWO_32;
      var sum := (count0 + low) % TWO_32;
      var carried := if sum < low then (count1 + 1) % TWO_32 else count1;
      Counts(sum, (carried + len / 0x2000_0000) % TWO_32, n + len)
  {
    var low, high := 8 * len % TWO_32, len / 0x2000_0000;
    var sum := (count0 + low) % TWO_32;
    var carry := if sum < low then 1 else 0;
    var c1 := count1 + carry + high;
    CarryIsExact(count0, low);
    ModAdd32(count1 + carry, high);
    ModAdd64(8 * n, 8 * len);
    Scaled(sum, c1);
    assert 8 * len == low + TWO_32 * high;
    assert count0 + TWO_32 * count1 + 8 * len == sum + TWO_32 * c1;
  }

  /** Unsigned overflow shows as a sum below the summand. */
  lemma CarryIsExact(a: Word, b: Word)
    ensures var sum := (a + b) % TWO_32; a + b == sum + if sum < b then TWO_32 else 0
  {
  }

  lemma ModAdd32(a: nat, b: nat)
    ensures (a % TWO_32 + b) % TWO_32 == (a + b) % TWO_32
  {
  }

  lemma ModAdd64(a: nat, b: nat)
    ensures (a % TWO_64 + b) % TWO_64 == (a + b) % TWO_64
  {
  }

  lemma Scaled(low: Word, high: nat)
    ensures (low + TWO_32 * high) % TWO_64 == low + TWO_32 * (high % TWO_32)
  {
    var q, r := high / TWO_32, high % TWO_32;
    assert low + TWO_32 * high == low + TWO_32 * r + TWO_64 * q;
  }

  /** The index into the buffer is the length of the message modulo 64. */
  lemma IndexOfCount(count0: Word, count1: Word, n: nat)
    requires Counts(count0, count1, n)
    ensures count0 / 8 % 64 == n % 64
  {
    var k := 8 * n / TWO_64;
    assert 8 * n == count0 + TWO_32 * (count1 + TWO_32 * k);
    assert n == count0 / 8 + 0x2000_0000 * (count1 + TWO_32 * k);
  }

  /** `Encode` of the two words is the 64-bit count of section 3.2. */
  lemma CountEncoded(count0: Word, count1: Word, n: nat)
    requires Counts(count0, count1, n)
    ensures Encoded([count0, count1]) == LittleEndian(8 * n % TWO_64, 8)
  {
    var v := count0 + TWO_32 * count1;
    LittleEndianWord(count0, count1, 4);
    LittleEndianWord(count1, 0, 0);
    assert [count0, count1][1..] == [count1];
    assert Encoded([count1]) == Bytes(count1) + Encoded([]);
  }

  lemma LittleEndianWord(w: Word, rest: nat, n: nat)
    ensures LittleEndian(w + TWO_32 * rest, n + 4) == Bytes(w) + LittleEndian(rest, n)
  {
    hide LittleEndian;
    var w1, w2, w3 := w / 0x100, w / 0x10000, w / 0x1000000;
    assert w2 == w1 / 0x100 && w3 == w2 / 0x100;
    NextByte(w, TWO_32 * rest, w1, 0x1000000 * rest, n + 3);
    NextByte(w1, 0x1000000 * rest, w2, 0x10000 * rest, n + 2);
    NextByte(w2, 0x10000 * rest, w3, 0x100 * rest, n + 1);
    NextByte(w3, 0x100 * rest, 0, rest, n);
  }

  lemma NextByte(v: nat, shifted: nat, v': nat, shifted': nat, n: nat)
    requires v' == v / 256 && shifted == 256 * shifted'
    ensures LittleEndian(v + shifted, n + 1) == [v % 256] + LittleEndian(v' + shifted', n)
  {
    assert (v + shifted) / 256 == v' + shifted' && (v + shifted) % 256 == v % 256;
  }

  // ----- The loop guard `i + 63 < inputLen` in 32 bits

  /** Where the block loop of `MD5Update` has to stop. */
  function LastBlock(index: nat, len: nat): nat
    requires index < 64 && 64 - index <= len
  {
    len - (index + len) % 64
  }

  /** The guard, computed modulo 2^32, is false at the end of the last whole block. */
  predicate GuardStops(index: nat, len: nat)
    requires index < 64
  {
    64 - index <= len ==> LastBlock(index, len) + 63 < TWO_32
  }

  /** It stops for every input of at most 2^32 - 64 bytes and for every input of a fresh context;
      otherwise it is true there, and the loop runs past the end of the input. */
  lemma GuardExact(index: nat, len: Word)
    requires index < 64
    ensures len <= TWO_32 - 64 || index == 0 ==> GuardStops(index, len)
    ensures 64 - index <= len ==>
      (GuardStops(index, len) <==> !((LastBlock(index, len) + 63) % TWO_32 < len))
  {
    if 64 - index <= len {
      var i := LastBlock(index, len);
      if i + 63 >= TWO_32 {
        assert (i + 63) % TWO_32 == i + 63 - TWO_32;
      }
    }
  }

  // ----- The context

  class Context {
    const transform: Transform
    var state: State
    var count0: Word
    var count1: Word
    const buffer: array<Byte>
    /** What has been fed in so far. */
    ghost var message: seq<Byte>

    ghost predicate Valid()
      reads this, buffer
    {
      && buffer.Length == 64
      && state == Chain(transform, INITIAL, message)
      && buffer[..|message| % 64] == Rest(message)
      && Counts(count0, count1, |message|)
    }

    constructor (transform: Transform)
      ensures Valid() && message == [] && this.transform == transform && fresh(buffer)
    {
      this.transform := transform;
      state, count0, count1 := INITIAL, 0, 0;
      buffer := new Byte[64];
      message := [];
    }

    method Count(len: Word)
      requires Counts(count0, count1, |message|)
      modifies this`count0, this`count1
      ensures Counts(count0, count1, |message| + len)
    {
      CountAdds(count0, count1, |message|, len);
      count0 := (count0 + 8 * len % TWO_32) % TWO_32;
      if count0 < 8 * len % TWO_32 {
        count1 := (count1 + 1) % TWO_32;
      }
      count1 := (count1 + len / 0x2000_0000) % TWO_32;
    }

    /** `MD5_memcpy` into the buffer. */
    method Copy(at: nat, input: seq<Byte>)
      requires buffer.Length == 64 && at + |input| <= 64
      modifies buffer
      ensures buffer[..at + |input|] == old(buffer[..at]) + input
    {
      forall i | 0 <= i < |input| {
        buffer[at + i] := input[i];
      }
    }

    /** The loop of `MD5Update` over the whole blocks of the input from `start` on. */
    method Blocks(input: seq<Byte>, start: nat) returns (i: nat)
      requires 1 <= start <= 64 && start <= |input| < TWO_32 && GuardStops(64 - start, |input|)
      modifies this`state
      ensures start <= i <= |input| < i + 64 && (i - start) % 64 == 0
      ensures state == Chain(transform, old(state), input[start..])
    {
      hide Chain;
      i := start;
      while (i + 63) % TWO_32 < |input|
        invariant start <= i <= |input| && (i - start) % 64 == 0
        invariant Chain(transform, state, input[i..]) == Chain(transform, old(state), input[start..])
        decreases |input| - i
      {
        GuardIsHonest(64 - start, |input|, i);
        FirstBlock(transform, state, input[i..]);
        assert input[i..][..64] == input[i..i + 64] && input[i..][64..] == input[i + 64..];
        state := transform(state, input[i..i + 64]);
        i := i + 64;
      }
      GuardAtEnd(|input|, i);
      FirstBlock(transform, state, input[i..]);
    }

    /** `MD5Update`: the context is that of the longer message. */
    method Update(input: seq<Byte>)
      requires Valid() && |input| < TWO_32 && GuardStops(|message| % 64, |input|)
      modifies this, buffer
      ensures Valid() && message == old(message) + input
    {
      hide Chain, Counts, GuardStops, Rest;
      IndexOfCount(count0, count1, |message|);
      var index := count0 / 8 % 64;
      ghost var rest, all := Rest(message), Rest(message) + input;
      ChainContinues(transform, INITIAL, message, input);
      FirstBlock(transform, state, all);
      Count(|input|);
      var partLen := 64 - index;
      var i := 0;
      if |input| >= partLen {
        SplitAt(rest, input, partLen);
        Copy(index, input[..partLen]);
        assert buffer[..] == buffer[..64];
        state := transform(state, buffer[..]);
        i := Blocks(input, partLen);
        SplitAt(rest, input, i);
        assert state == Chain(transform, old(state), all);
        index := 0;
        assert buffer[..0] + input[i..] == input[i..];
      } else {
        SplitAt(rest, input, 0);
        assert input[0..] == input;
      }
      Leftover(all, if i == 0 then 0 else |rest| + i);
      Copy(index, input[i..]);
      message := message + input;
      assert index + |input[i..]| == |Rest(message)|;
    }
  }

  lemma SplitAt(r: seq<Byte>, input: seq<Byte>, i: nat)
    requires i <= |input|
    ensures (r + input)[..|r| + i] == r + input[..i] && (r + input)[|r| + i..] == input[i..]
  {
  }

  lemma Leftover(m: seq<Byte>, at: nat)
    requires at <= |m| < at + 64 && at % 64 == 0
    ensures Rest(m) == m[at..]
  {
  }

  lemma FirstBlock(f: Transform, s: State, m: seq<Byte>)
    ensures |m| >= 64 ==> Chain(f, s, m) == Chain(f, f(s, m[..64]), m[64..])
    ensures |m| < 64 ==> Chain(f, s, m) == s
  {
  }

  lemma GuardIsHonest(index: nat, len: nat, i: nat)
    requires index < 64 && 64 - index <= i <= len < TWO_32 && (index + i) % 64 == 0
    requires GuardStops(index, len) && (i + 63) % TWO_32 < len
    ensures i + 64 <= len
  {
  }

  lemma GuardAtEnd(len: nat, i: nat)
    requires i <= len < TWO_32 && !((i + 63) % TWO_32 < len)
    ensures len < i + 64
  {
  }

  // ----- `Encode` and `Decode`

  lemma {:induction false} EncodedSnoc(ws: seq<Word>, w: Word)
    ensures Encoded(ws + [w]) == Encoded(ws) + Bytes(w)
  {
    if ws == [] {
      assert ws + [w] == [w] && [w][1..] == [];
    } else {
      assert (ws + [w])[1..] == ws[1..] + [w];
      EncodedSnoc(ws[1..], w);
    }
  }

  lemma DecodedCons(first: seq<Byte>, b: seq<Byte>)
    requires |b| % 4 == 0 && |first| == 4
    ensures |first + b| % 4 == 0 && Decoded(first + b) == [WordOf(first)] + Decoded(b)
  {
    assert (first + b)[..4] == first && (first + b)[4..] == b;
  }

  lemma {:induction false} DecodedSnoc(b: seq<Byte>, last: seq<Byte>)
    requires |b| % 4 == 0 && |last| == 4
    ensures Decoded(b + last) == Decoded(b) + [WordOf(last)]
    decreases |b|
  {
    if b == [] {
      DecodedCons(last, []);
      assert b + last == last + [];
    } else {
      hide Decoded, WordOf;
      var first, rest := b[..4], b[4..];
      DecodedCons(first, rest);
      DecodedCons(first, rest + last);
      DecodedSnoc(rest, last);
      assert b == first + rest && b + last == first + (rest + last);
    }
  }

  method Encode(output: array<Byte>, input: seq<Word>, len: nat)
    requires len % 4 == 0 && len / 4 <= |input| && len <= output.Length
    modifies output
    ensures output[..len] == Encoded(input[..len / 4])
    ensures output[len..] == old(output[len..])
  {
    var i, j := 0, 0;
    while j < len
      invariant j == 4 * i <= len
      invariant output[..j] == Encoded(input[..i])
      invariant output[len..] == old(output[len..])
    {
      output[j] := input[i] % 0x100;
      output[j + 1] := input[i] / 0x100 % 0x100;
      output[j + 2] := input[i] / 0x10000 % 0x100;
      output[j + 3] := input[i] / 0x1000000 % 0x100;
      EncodedSnoc(input[..i], input[i]);
      assert input[..i + 1] == input[..i] + [input[i]];
      assert output[..j + 4] == output[..j] + Bytes(input[i]);
      i, j := i + 1, j + 4;
    }
  }

  method Decode(output: array<Word>, input: seq<Byte>, len: nat)
    requires len % 4 == 0 && len <= |input| && len / 4 <= output.Length
    modifies output
    ensures output[..len / 4] == Decoded(input[..len])
    ensures output[len / 4..] == old(output[len / 4..])
  {
    var i, j := 0, 0;
    while j < len
      invariant j == 4 * i <= len
      invariant output[..i] == Decoded(input[..j])
      invariant output[len / 4..] == old(output[len / 4..])
    {
      output[i] := WordOf(input[j..j + 4]);
      DecodedSnoc(input[..j], input[j..j + 4]);
      assert input[..j + 4] == input[..j] + input[j..j + 4];
      i, j := i + 1, j + 4;
    }
  }

  // ----- Whole digests

  const PADDING: seq<Byte> := Padding(64)

  /** `MD5Final`: the digest is that of everything fed in; the context is wiped. */
  method Final(digest: array<Byte>, context: Context)
    requires context.Valid() && digest.Length == 16 && digest != context.buffer
    modifies digest, context, context.buffer
    ensures digest[..] == Digest(context.transform, old(context.message))
    ensures context.state == [0, 0, 0, 0] && context.count0 == context.count1 == 0
    ensures forall i :: 0 <= i < context.buffer.Length ==> context.buffer[i] == 0
  {
    hide Chain, Encoded, LittleEndian, Rest, Counts, GuardStops;
    ghost var m := context.message;
    var bits := new Byte[8];
    Encode(bits, [context.count0, context.count1], 8);
    CountEncoded(context.count0, context.count1, |m|);
    assert [context.count0, context.count1][..2] == [context.count0, context.count1];
    assert bits[..] == bits[..8] == LittleEndian(8 * |m| % TWO_64, 8);
    IndexOfCount(context.count0, context.count1, |m|);
    var index := context.count0 / 8 % 64;
    var padLen := if index < 56 then 56 - index else 120 - index;
    PadLengthExact(|m|, padLen);
    assert PADDING[..padLen] == Padding(padLen);
    GuardExact(|m| % 64, padLen);
    context.Update(PADDING[..padLen]);
    GuardExact(|context.message| % 64, 8);
    context.Update(bits[..]);
    assert context.message == Padded(m);
    Encode(digest, context.state, 16);
    assert context.state[..4] == context.state && digest[..] == digest[..16];
    context.state, context.count0, context.count1 := [0, 0, 0, 0], 0, 0;
    forall i | 0 <= i < context.buffer.Length {
      context.buffer[i] := 0;
    }
  }

  /** `MD5Buffer` and, up to the length of the string, `MD5String`. */
  method Md5Buffer(transform: Transform, bytes: seq<Byte>, digest: array<Byte>)
    requires |bytes| < TWO_32 && digest.Length == 16
    modifies digest
    ensures digest[..] == Digest(transform, bytes)
  {
    var context := new Context(transform);
    GuardExact(0, |bytes|);
    context.Update(bytes);
    assert context.message == bytes;
    Final(digest, context);
  }

  function Joined(chunks: seq<seq<Byte>>): seq<Byte> {
    if chunks == [] || chunks[0] == [] then [] else chunks[0] + Joined(chunks[1..])
  }

  /** `MD5File`: `chunks` are the results of the calls of `fread`, the first empty one ends the loop. */
  method Md5File(transform: Transform, chunks: seq<seq<Byte>>, digest: array<Byte>)
    requires digest.Length == 16 && forall r <- chunks :: |r| <= 1024
    modifies digest
    ensures digest[..] == Digest(transform, Joined(chunks))
  {
    hide Chain, Rest, Counts, Digest, GuardStops, Joined;
    var context := new Context(transform);
    var i := 0;
    assert chunks[0..] == chunks;
    while i < |chunks| && chunks[i] != []
      invariant i <= |chunks| && context.Valid() && context.transform == transform
      invariant context.message + Joined(chunks[i..]) == Joined(chunks)
      modifies context, context.buffer
    {
      JoinedStep(context.message, chunks, i);
      GuardExact(|context.message| % 64, |chunks[i]|);
      context.Update(chunks[i]);
      i := i + 1;
    }
    JoinedStep(context.message, chunks, i);
    Final(digest, context);
  }

  lemma JoinedStep(m: seq<Byte>, chunks: seq<seq<Byte>>, i: nat)
    requires i <= |chunks|
    ensures i == |chunks| || chunks[i] == [] ==> m + Joined(chunks[i..]) == m
    ensures i < |chunks| && chunks[i] != [] ==>
      m + Joined(chunks[i..]) == (m + chunks[i]) + Joined(chunks[i + 1..])
  {
    if i < |chunks| && chunks[i] != [] {
      assert chunks[i..][1..] == chunks[i + 1..];
    }
  }
}
