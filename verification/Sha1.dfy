/** mfbt/SHA1.cpp: operations on 32-bit words, kept apart so that proofs elsewhere treat them as black boxes. */
module Words {

  type word = bv32

  /** Addition modulo 2^32. */
  function Add(x: word, y: word): word { x + y }

  lemma AddAdd(p: word, x: word, k: word)
    ensures Add(Add(p, x), k) == p + x + k
  {
    assert Add(p, x) == p + x;
    assert Add(p + x, k) == p + x + k;
  }

  lemma AddSwap(p: word, x: word, k: word)
    ensures Add(Add(p, x), k) == Add(Add(p, k), x)
  {
    AddAdd(p, x, k);
    AddAdd(p, k, x);
  }
}

/** Two identities of bitwise logic, bit by bit. */
module WordIdentities {

  lemma Choose(x: bv32, y: bv32, z: bv32)
    ensures ((y ^ z) & x) ^ z == (x & y) ^ (!x & z)
  {
  }

  lemma Majority(x: bv32, y: bv32, z: bv32)
    ensures (x & y) | (z & (x | y)) == (x & y) ^ (x & z) ^ (y & z)
  {
  }
}

/** The logical functions of section 4.1.1 of FIPS 180-4 and the macros that compute them. */
module Logic {
  import opened Words
  import WordIdentities

  function Ch(x: word, y: word, z: word): word { (x & y) ^ (!x & z) }

  function Parity(x: word, y: word, z: word): word { x ^ y ^ z }

  function Maj(x: word, y: word, z: word): word { (x & y) ^ (x & z) ^ (y & z) }

  function F1(x: word, y: word, z: word): word { ((y ^ z) & x) ^ z }

  function F2(x: word, y: word, z: word): word { x ^ y ^ z }

  function F3(x: word, y: word, z: word): word { (x & y) | (z & (x | y)) }

  function F4(x: word, y: word, z: word): word { x ^ y ^ z }

  lemma F1IsCh(x: word, y: word, z: word)
    ensures F1(x, y, z) == Ch(x, y, z)
  {
    WordIdentities.Choose(x, y, z);
  }

  lemma F3IsMaj(x: word, y: word, z: word)
    ensures F3(x, y, z) == Maj(x, y, z)
  {
    WordIdentities.Majority(x, y, z);
  }

  lemma F2F4AreParity(x: word, y: word, z: word)
    ensures F2(x, y, z) == Parity(x, y, z) && F4(x, y, z) == Parity(x, y, z)
  {
  }
}

/** Feeding a block function from a stream of bytes that arrives in pieces of any size. */
module Blocks {

  type byte = bv8
  type Block = b: seq<byte> | |b| == 64 witness seq(64, _ => 0)

  /** The 64-bit count may wrap; the position within a block does not notice. */
  lemma CountKeepsPosition(n: nat)
    ensures n % 0x1_0000_0000_0000_0000 % 64 == n % 64
  {
  }

  lemma CountWraps(n: nat, k: nat)
    ensures (n % 0x1_0000_0000_0000_0000 + k) % 0x1_0000_0000_0000_0000 == (n + k) % 0x1_0000_0000_0000_0000
  {
  }

  lemma LengthField(n: nat)
    ensures n % 0x1_0000_0000_0000_0000 * 8 % 0x1_0000_0000_0000_0000 == 8 * n % 0x1_0000_0000_0000_0000
  {
    var q, r := n / 0x1_0000_0000_0000_0000, n % 0x1_0000_0000_0000_0000;
    var s := 8 * r / 0x1_0000_0000_0000_0000;
    Remainder(8 * n, 8 * q + s, 8 * r - 0x1_0000_0000_0000_0000 * s);
    Remainder(8 * r, s, 8 * r - 0x1_0000_0000_0000_0000 * s);
  }

  lemma ShortLength(n: nat)
    ensures n < 0x2000_0000_0000_0000 ==> 8 * n % 0x1_0000_0000_0000_0000 == 8 * n
  {
  }

  lemma Remainder(a: nat, q: nat, r: nat)
    requires r < 0x1_0000_0000_0000_0000 && a == 0x1_0000_0000_0000_0000 * q + r
    ensures a % 0x1_0000_0000_0000_0000 == r
  {
  }

  /** The state after all blocks of m. */
  function Fold<S>(f: (S, Block) -> S, h0: S, m: seq<byte>): S
    requires |m| % 64 == 0
  {
    if |m| == 0 then h0 else f(Fold(f, h0, m[..|m| - 64]), m[|m| - 64..])
  }

  lemma FoldBlock<S>(f: (S, Block) -> S, h0: S, m: seq<byte>, block: Block)
    requires |m| % 64 == 0
    ensures Fold(f, h0, m + block) == f(Fold(f, h0, m), block)
  {
    assert (m + block)[..|m|] == m && (m + block)[|m|..] == block;
  }

  /** State h and buffer buf have taken in m: its whole blocks are in h, the rest waits in buf. */
  ghost predicate Absorbed<S>(f: (S, Block) -> S, h0: S, m: seq<byte>, h: S, buf: Block) {
    var r := |m| % 64;
    h == Fold(f, h0, m[..|m| - r]) && buf[..r] == m[|m| - r..]
  }

  lemma AbsorbNothing<S>(f: (S, Block) -> S, h0: S, buf: Block)
    ensures Absorbed(f, h0, [], h0, buf)
  {
  }

  lemma Position(n: nat, k: nat)
    ensures (n - n % 64) % 64 == 0
    ensures n % 64 + k == 64 ==> (n + k) % 64 == 0
    ensures n % 64 + k < 64 ==> (n + k) % 64 == n % 64 + k
  {
  }

  lemma AbsorbPart<S>(f: (S, Block) -> S, h0: S, m: seq<byte>, h: S, buf: Block, part: seq<byte>, buf': Block)
    requires Absorbed(f, h0, m, h, buf) && |m| % 64 + |part| < 64
    requires buf'[..|m| % 64 + |part|] == buf[..|m| % 64] + part
    ensures Absorbed(f, h0, m + part, h, buf')
  {
    hide Fold;
    var r, k := |m| % 64, |m| - |m| % 64;
    Position(|m|, |part|);
    assert (m + part)[..k] == m[..k];
    assert (m + part)[k..] == m[k..] + part;
  }

  lemma AbsorbFill<S>(f: (S, Block) -> S, h0: S, m: seq<byte>, h: S, buf: Block, part: seq<byte>, buf': Block)
    requires Absorbed(f, h0, m, h, buf) && |m| % 64 + |part| == 64
    requires buf' == buf[..|m| % 64] + part
    ensures Absorbed(f, h0, m + part, f(h, buf'), buf')
  {
    hide Fold;
    var k := |m| - |m| % 64;
    Position(|m|, |part|);
    var a, n := m[..k], m + part;
    assert n == a + buf' by {
      assert m == a + m[k..];
      assert buf' == m[k..] + part;
    }
    FoldBlock(f, h0, a, buf');
    assert n[..|n|] == n && |n| % 64 == 0;
  }

  lemma AbsorbBlock<S>(f: (S, Block) -> S, h0: S, m: seq<byte>, h: S, buf: Block, block: Block)
    requires Absorbed(f, h0, m, h, buf) && |m| % 64 == 0
    ensures Absorbed(f, h0, m + block, f(h, block), buf)
  {
    hide Fold;
    FoldBlock(f, h0, m, block);
    assert m[..|m|] == m && (m + block)[..|m + block|] == m + block;
  }
}

module Sha1 {
  import opened Words
  import opened Blocks
  import opened Logic

  // ------------------------------------------------- FIPS 180-4, sections 3.2, 4.1.1 and 4.2.1

  /** ROTL, for the three shift amounts SHA-1 uses. */
  function Rotl(x: word, n: nat): word
    requires n == 1 || n == 5 || n == 30
  {
    if n == 1 then (x << 1) | (x >> 31)
    else if n == 5 then (x << 5) | (x >> 27)
    else (x << 30) | (x >> 2)
  }

  function F(t: nat, x: word, y: word, z: word): word {
    if t < 20 then Ch(x, y, z)
    else if t < 40 then Parity(x, y, z)
    else if t < 60 then Maj(x, y, z)
    else Parity(x, y, z)
  }

  function K(t: nat): word {
    if t < 20 then 0x5a827999
    else if t < 40 then 0x6ed9eba1
    else if t < 60 then 0x8f1bbcdc
    else 0xca62c1d6
  }

  // ------------------------------------------------------ FIPS 180-4, section 6.1.2

  datatype Regs = Regs(a: word, b: word, c: word, d: word, e: word)

  /** Word n of a block, big-endian. */
  function Load(block: Block, n: nat): word
    requires n < 16
  {
    (block[4 * n] as word << 24) | (block[4 * n + 1] as word << 16) | (block[4 * n + 2] as word << 8) | block[4 * n + 3] as word
  }

  /** The message schedule of 80 words. */
  function W(block: Block, t: nat): word
  {
    if t < 16 then Load(block, t)
    else Rotl(W(block, t - 3) ^ W(block, t - 8) ^ W(block, t - 14) ^ W(block, t - 16), 1)
  }

  function Step(r: Regs, t: nat, w: word): Regs {
    Regs(Add(Add(Add(Add(Rotl(r.a, 5), F(t, r.b, r.c, r.d)), r.e), K(t)), w), r.a, Rotl(r.b, 30), r.c, r.d)
  }

  /** The working variables after t rounds. */
  function Rounds(h: Regs, block: Block, t: nat): Regs
  {
    if t == 0 then h else Step(Rounds(h, block, t - 1), t - 1, W(block, t - 1))
  }

  const ROUNDS: nat := 80

  function Compress(h: Regs, block: Block): Regs
  {
    var r := Rounds(h, block, ROUNDS);
    Regs(Add(h.a, r.a), Add(h.b, r.b), Add(h.c, r.c), Add(h.d, r.d), Add(h.e, r.e))
  }

  const H0 := Regs(0x67452301, 0xefcdab89, 0x98badcfe, 0x10325476, 0xc3d2e1f0)

  // ------------------------------------------------ FIPS 180-4, section 5.1.1, and the digest

  function Zeros(n: nat): (z: seq<byte>)
    ensures |z| == n
  {
    seq(n, _ => 0)
  }

  function BigEndian32(w: word): (s: seq<byte>)
    ensures |s| == 4
  {
    [(w >> 24) as byte, ((w >> 16) & 0xff) as byte, ((w >> 8) & 0xff) as byte, (w & 0xff) as byte]
  }

  function BigEndian64(n: nat): (s: seq<byte>)
    requires n < 0x1_0000_0000_0000_0000
    ensures |s| == 8
  {
    TwoWords(n / 0x1_0000_0000, n % 0x1_0000_0000)
  }

  function TwoWords(hi: nat, lo: nat): (s: seq<byte>)
    requires hi < 0x1_0000_0000 && lo < 0x1_0000_0000
    ensures |s| == 8
  {
    BigEndian32(hi as word) + BigEndian32(lo as word)
  }

  /** How many zero bytes follow the 0x80 byte: the least number that leaves room for the length. */
  function ZeroCount(length: nat): (k: nat)
    ensures k < 64 && (length + 1 + k) % 64 == 56
  {
    (55 + 64 - length % 64) % 64
  }

  /** Message, 0x80, zeros, and the bit length as a 64-bit number. */
  function Padded(m: seq<byte>, bitLength: nat): (p: seq<byte>)
    requires bitLength < 0x1_0000_0000_0000_0000
    ensures |p| % 64 == 0
  {
    m + [0x80] + Zeros(ZeroCount(|m|)) + BigEndian64(bitLength)
  }

  function Digest(r: Regs): (d: seq<byte>)
    ensures |d| == 20
  {
    BigEndian32(r.a) + BigEndian32(r.b) + BigEndian32(r.c) + BigEndian32(r.d) + BigEndian32(r.e)
  }

  /** SHA-1 of a message the standard covers: fewer than 2^64 bits. */
  function Sha1(m: seq<byte>): seq<byte>
    requires |m| < 0x2000_0000_0000_0000
  {
    Digest(Fold(Compress, H0, Padded(m, 8 * |m|)))
  }

  // ------------------------------------------------------------------ the macros

  function MacroF(p: nat, x: word, y: word, z: word): word
    requires 1 <= p <= 4
  {
    if p == 1 then F1(x, y, z) else if p == 2 then F2(x, y, z) else if p == 3 then F3(x, y, z) else F4(x, y, z)
  }

  function MacroK(p: nat): word
    requires 1 <= p <= 4
  {
    if p == 1 then 0x5a827999 else if p == 2 then 0x6ed9eba1 else if p == 3 then 0x8f1bbcdc else 0xca62c1d6
  }

  /** SHA_RND1 to SHA_RND4, selected by p: the new value of the first register. */
  function Rnd(p: nat, a: word, b: word, c: word, d: word, e: word, x: word): word
    requires 1 <= p <= 4
  {
    Add(Add(Add(Add(Rotl(b, 5), MacroF(p, c, d, e)), a), x), MacroK(p))
  }

  lemma MacroIsF(p: nat, t: nat, x: word, y: word, z: word)
    requires 1 <= p <= 4 && 20 * (p - 1) <= t < 20 * p
    ensures MacroF(p, x, y, z) == F(t, x, y, z) && MacroK(p) == K(t)
  {
    if p == 1 {
      F1IsCh(x, y, z);
    } else if p == 3 {
      F3IsMaj(x, y, z);
    } else {
      F2F4AreParity(x, y, z);
    }
  }

  /** A macro of group p is the FIPS step of any round of that group. */
  lemma RndIsStep(p: nat, t: nat, r: Regs, x: word)
    requires 1 <= p <= 4 && 20 * (p - 1) <= t < 20 * p
    ensures Step(r, t, x) == Regs(Rnd(p, r.e, r.a, r.b, r.c, r.d, x), r.a, Rotl(r.b, 30), r.c, r.d)
  {
    MacroIsF(p, t, r.b, r.c, r.d);
    AddSwap(Add(Add(Rotl(r.a, 5), F(t, r.b, r.c, r.d)), r.e), x, K(t));
  }

  // ------------------------------------------------------------- the compression

  /** Where XW(t mod 16) lies in the array mH: after the five state words. */
  function Slot(t: nat): (i: nat)
    ensures 5 <= i < 21
  {
    5 + t % 16
  }

  /** SHA_MIX's right-hand side. */
  function Mix(a: word, b: word, c: word, d: word): word {
    Rotl(a ^ b ^ c ^ d, 1)
  }

  /** The last sixteen schedule words computed before round t are where the macros look for them. */
  ghost predicate Scheduled(X: array<word>, buf: Block, t: nat)
    requires X.Length == 22
    reads X
  {
    forall k {:trigger Slot(k)} :: 0 <= k < t <= k + 16 ==> X[Slot(k)] == W(buf, k)
  }

  lemma Slots(t: nat)
    ensures forall k {:trigger Slot(k)} :: 0 <= k < t < k + 16 ==> Slot(k) != Slot(t)
    ensures t >= 16 ==> Slot(t - 16) == Slot(t)
  {
  }

  /** LOAD(t) in the first sixteen rounds, SHA_MIX of slot t mod 16 after them. */
  method NextW(X: array<word>, buf: Block, t: nat)
    requires X.Length == 22 && Scheduled(X, buf, t)
    modifies X
    ensures Scheduled(X, buf, t + 1) && X[Slot(t)] == W(buf, t)
    ensures X[..5] == old(X[..5])
  {
    Slots(t);
    if t < 16 {
      X[Slot(t)] := Load(buf, t);
    } else {
      X[Slot(t)] := Mix(X[Slot(t - 3)], X[Slot(t - 8)], X[Slot(t - 14)], X[Slot(t)]);
    }
  }

  /** One line of shaCompress: schedule word t, then SHA_RNDp(a, b, c, d, e, t mod 16).
      The registers take turns instead of being moved, so FIPS's a is the macro's b. */
  method Round(p: nat, t: nat, X: array<word>, buf: Block, ghost h: Regs,
               a: word, b: word, c: word, d: word, e: word)
    returns (a': word, c': word)
    requires 1 <= p <= 4 && 20 * (p - 1) <= t < 20 * p
    requires X.Length == 22 && Scheduled(X, buf, t)
    requires Regs(b, c, d, e, a) == Rounds(h, buf, t)
    modifies X
    ensures Scheduled(X, buf, t + 1) && X[..5] == old(X[..5])
    ensures Regs(a', b, c', d, e) == Rounds(h, buf, t + 1)
  {
    NextW(X, buf, t);
    RndIsStep(p, t, Regs(b, c, d, e, a), X[Slot(t)]);
    a', c' := Rnd(p, a, b, c, d, e, X[Slot(t)]), Rotl(c, 30);
  }

  /** Five lines, after which every register is back in its place. */
  method FiveRounds(p: nat, t: nat, X: array<word>, buf: Block, ghost h: Regs,
                    a: word, b: word, c: word, d: word, e: word)
    returns (A: word, B: word, C: word, D: word, E: word)
    requires 1 <= p <= 4 && 20 * (p - 1) <= t <= 20 * p - 5
    requires X.Length == 22 && Scheduled(X, buf, t)
    requires Regs(a, b, c, d, e) == Rounds(h, buf, t)
    modifies X
    ensures Scheduled(X, buf, t + 5) && X[..5] == old(X[..5])
    ensures Regs(A, B, C, D, E) == Rounds(h, buf, t + 5)
  {
    A, B, C, D, E := a, b, c, d, e;
    E, B := Round(p, t, X, buf, h, E, A, B, C, D);
    D, A := Round(p, t + 1, X, buf, h, D, E, A, B, C);
    C, E := Round(p, t + 2, X, buf, h, C, D, E, A, B);
    B, D := Round(p, t + 3, X, buf, h, B, C, D, E, A);
    A, C := Round(p, t + 4, X, buf, h, A, B, C, D, E);
  }

  /** The twenty rounds that use SHA_RNDp. */
  method TwentyRounds(p: nat, X: array<word>, buf: Block, ghost h: Regs,
                      a: word, b: word, c: word, d: word, e: word)
    returns (A: word, B: word, C: word, D: word, E: word)
    requires 1 <= p <= 4
    requires X.Length == 22 && Scheduled(X, buf, 20 * p - 20)
    requires Regs(a, b, c, d, e) == Rounds(h, buf, 20 * p - 20)
    modifies X
    ensures Scheduled(X, buf, 20 * p) && X[..5] == old(X[..5])
    ensures Regs(A, B, C, D, E) == Rounds(h, buf, 20 * p)
  {
    var t := 20 * p - 20;
    A, B, C, D, E := FiveRounds(p, t, X, buf, h, a, b, c, d, e);
    A, B, C, D, E := FiveRounds(p, t + 5, X, buf, h, A, B, C, D, E);
    A, B, C, D, E := FiveRounds(p, t + 10, X, buf, h, A, B, C, D, E);
    A, B, C, D, E := FiveRounds(p, t + 15, X, buf, h, A, B, C, D, E);
  }

  function State(s: seq<word>): Regs
    requires |s| == 5
  {
    Regs(s[0], s[1], s[2], s[3], s[4])
  }

  /** shaCompress: 80 rounds over the rolling schedule, then the sums. */
  method ShaCompress(X: array<word>, buf: Block)
    requires X.Length == 22
    modifies X
    ensures State(X[..5]) == Compress(old(State(X[..5])), buf)
  {
    ghost var h := State(X[..5]);
    var A, B, C, D, E := X[0], X[1], X[2], X[3], X[4];
    A, B, C, D, E := TwentyRounds(1, X, buf, h, A, B, C, D, E);
    A, B, C, D, E := TwentyRounds(2, X, buf, h, A, B, C, D, E);
    A, B, C, D, E := TwentyRounds(3, X, buf, h, A, B, C, D, E);
    A, B, C, D, E := TwentyRounds(4, X, buf, h, A, B, C, D, E);
    AddState(X, A, B, C, D, E);
  }

  /** The last five lines of shaCompress. */
  method AddState(X: array<word>, A: word, B: word, C: word, D: word, E: word)
    requires X.Length == 22
    modifies X
    ensures X[..5] == old([Add(X[0], A), Add(X[1], B), Add(X[2], C), Add(X[3], D), Add(X[4], E)])
  {
    X[0] := Add(X[0], A);
    X[1] := Add(X[1], B);
    X[2] := Add(X[2], C);
    X[3] := Add(X[3], D);
    X[4] := Add(X[4], E);
  }

  // ----------------------------------------------------------------- the stream

  /** memcpy into the buffer. */
  method CopyInto(buf: array<byte>, at: nat, data: seq<byte>)
    requires at + |data| <= buf.Length
    modifies buf
    ensures buf[..] == old(buf[..at]) + data + old(buf[at + |data|..])
  {
    forall i | 0 <= i < |data| {
      buf[at + i] := data[i];
    }
  }

  class SHA1Sum {
    const mB: array<byte>      // the union mU, seen as bytes
    var mSize: nat             // a 64-bit count of hashed bytes
    const mH: array<word>      // five state words and the schedule
    var mDone: bool
    ghost var message: seq<byte>

    /** Everything hashed so far is m. */
    ghost predicate Took(m: seq<byte>)
      reads mB, mH
    {
      mB.Length == 64 && mH.Length == 22 && Absorbed(Compress, H0, m, State(mH[..5]), mB[..])
    }

    ghost predicate Valid()
      reads this, mB, mH
    {
      Took(message) && mSize == |message| % 0x1_0000_0000_0000_0000
    }

    constructor ()
      ensures Valid() && message == [] && !mDone && fresh(mB) && fresh(mH)
    {
      mB := new byte[64];
      mH := new word[22];
      mSize, mDone, message := 0, false, [];
      new;
      mH[0] := 0x67452301;
      mH[1] := 0xefcdab89;
      mH[2] := 0x98badcfe;
      mH[3] := 0x10325476;
      mH[4] := 0xc3d2e1f0;
      assert State(mH[..5]) == H0;
      AbsorbNothing(Compress, H0, mB[..]);
    }

    /** The first part of update: completes a block begun earlier, as far as data reaches. */
    method TopUp(data: seq<byte>, lenB: nat, ghost m: seq<byte>) returns (rest: seq<byte>, ghost m': seq<byte>)
      requires Took(m) && lenB == |m| % 64 && lenB > 0
      modifies mB, mH
      ensures Took(m') && m' + rest == m + data && (|m'| % 64 == 0 || rest == [])
    {
      hide Fold, Absorbed, Compress;
      var togo := 64 - lenB;
      if |data| < togo {
        togo := |data|;
      }
      ghost var was, h := mB[..], State(mH[..5]);
      var part := data[..togo];
      CopyInto(mB, lenB, part);
      rest, m' := data[togo..], m + part;
      assert m + data == m' + rest;
      Position(|m|, togo);
      if (lenB + togo) % 64 == 0 {
        assert mB[..] == was[..lenB] + part;
        AbsorbFill(Compress, H0, m, h, was, part, mB[..]);
        ShaCompress(mH, mB[..]);
      } else {
        assert mB[..][..lenB + togo] == was[..lenB] + part;
        AbsorbPart(Compress, H0, m, h, was, part, mB[..]);
      }
    }

    /** The loop of update: whole blocks straight from the caller's memory. */
    method WholeBlocks(data: seq<byte>, ghost m: seq<byte>) returns (rest: seq<byte>, ghost m': seq<byte>)
      requires Took(m) && (|m| % 64 == 0 || data == [])
      modifies mH
      ensures Took(m') && m' + rest == m + data && (|m'| % 64 == 0 || rest == []) && |rest| < 64
    {
      hide Fold, Absorbed, Compress;
      rest, m' := data, m;
      while |rest| >= 64
        invariant m' + rest == m + data
        invariant Took(m') && (|m'| % 64 == 0 || rest == [])
      {
        var block := rest[..64];
        assert (m' + block) + rest[64..] == m' + rest;
        Position(|m'|, 64);
        AbsorbBlock(Compress, H0, m', State(mH[..5]), mB[..], block);
        ShaCompress(mH, block);
        m', rest := m' + block, rest[64..];
      }
    }

    /** The end of update: keeps what is left for later. */
    method Keep(rest: seq<byte>, ghost m: seq<byte>)
      requires Took(m) && (|m| % 64 == 0 || rest == []) && |rest| < 64
      modifies mB
      ensures Took(m + rest)
    {
      hide Fold, Absorbed, Compress;
      assert m + [] == m;
      if |rest| > 0 {
        ghost var was := mB[..];
        CopyInto(mB, 0, rest);
        AbsorbPart(Compress, H0, m, State(mH[..5]), was, rest, mB[..]);
      }
    }

    /** Adds data to the message being hashed. */
    method Update(data: seq<byte>)
      requires Valid() && !mDone && |data| < 0x1_0000_0000
      modifies this`mSize, this`message, mB, mH
      ensures Valid() && message == old(message) + data
    {
      if |data| == 0 {
        return;
      }
      var lenB := mSize % 64;
      ghost var m := message;
      CountKeepsPosition(|m|);
      CountWraps(|m|, |data|);
      mSize := (mSize + |data|) % 0x1_0000_0000_0000_0000;
      message := message + data;
      assert mSize == |message| % 0x1_0000_0000_0000_0000;
      var rest := data;
      if lenB > 0 {
        rest, m := TopUp(data, lenB, m);
      }
      rest, m := WholeBlocks(rest, m);
      Keep(rest, m);
    }

    /** Writes the length field into the last eight bytes and hashes the last block. */
    method LastBlock(field: seq<byte>, ghost m: seq<byte>)
      requires Took(m) && |m| % 64 == 56 && |field| == 8
      modifies mB, mH
      ensures mH.Length == 22 && |m + field| % 64 == 0 && State(mH[..5]) == Fold(Compress, H0, m + field)
    {
      hide Fold, Compress;
      ghost var was := mB[..];
      CopyInto(mB, 56, field);
      assert mB[..] == was[..56] + field;
      AbsorbFill(Compress, H0, m, State(mH[..5]), was, field, mB[..]);
      ShaCompress(mH, mB[..]);
      assert (m + field)[..|m + field|] == m + field;
    }

    /** Pads the message, hashes the last blocks and returns the digest. The length field holds
        the bit count modulo 2^64; for every message the standard covers this is the bit count. */
    method Finish() returns (hash: seq<byte>)
      requires Valid() && !mDone
      modifies this, mB, mH
      ensures mDone
      ensures hash == DigestOf(old(message))
      ensures |old(message)| < 0x2000_0000_0000_0000 ==> hash == Sha1(old(message))
    {
      ghost var m := message;
      var size := mSize;
      var lenB := size % 64;
      var bulkPad: seq<byte> := [0x80] + Zeros(63);
      var pad := bulkPad[..(55 + 64 - lenB) % 64 + 1];
      PadBytes(m, size, pad);
      Update(pad);
      var field := BigEndian64(size * 8 % 0x1_0000_0000_0000_0000);
      assert message == m + pad;
      LastBlock(field, message);
      hash := Digest(State(mH[..5]));
      mDone := true;
    }
  }

  lemma PadBytes(m: seq<byte>, size: nat, pad: seq<byte>)
    requires size == |m| % 0x1_0000_0000_0000_0000
    requires |pad| == (55 + 64 - size % 64) % 64 + 1 && pad == ([0x80] + Zeros(63))[..|pad|]
    ensures |m + pad| % 64 == 56
    ensures m + pad + BigEndian64(size * 8 % 0x1_0000_0000_0000_0000) == Padded(m, 8 * |m| % 0x1_0000_0000_0000_0000)
    ensures |m| < 0x2000_0000_0000_0000 ==> 8 * |m| % 0x1_0000_0000_0000_0000 == 8 * |m|
  {
    hide BigEndian64;
    hide Zeros;
    LengthField(|m|);
    ShortLength(|m|);
    var z := ZeroCount(|m|);
    assert |pad| == z + 1 by {
      CountKeepsPosition(|m|);
    }
    PadIsCut(pad, z);
    PadRegroup(m, Zeros(z), BigEndian64(size * 8 % 0x1_0000_0000_0000_0000));
  }

  lemma PadIsCut(pad: seq<byte>, z: nat)
    requires z < 64 && pad == ([0x80] + Zeros(63))[..z + 1]
    ensures pad == [0x80] + Zeros(z)
  {
  }

  lemma PadRegroup(m: seq<byte>, z: seq<byte>, f: seq<byte>)
    ensures m + ([0x80] + z) + f == m + [0x80] + z + f
  {
    assert m + ([0x80] + z) == m + [0x80] + z;
  }

  /** What finish returns for a message of any length. */
  function DigestOf(m: seq<byte>): seq<byte> {
    Digest(Fold(Compress, H0, Padded(m, 8 * |m| % 0x1_0000_0000_0000_0000)))
  }

  // ------------------------------------------------------- any way of cutting the message

  function Flatten(pieces: seq<seq<byte>>): seq<byte> {
    if pieces == [] then [] else Flatten(pieces[..|pieces| - 1]) + pieces[|pieces| - 1]
  }

  /** The documented use of the class. The digest is that of the concatenation, however it was cut. */
  method HashPieces(pieces: seq<seq<byte>>) returns (hash: seq<byte>)
    requires forall p :: p in pieces ==> |p| < 0x1_0000_0000
    requires |Flatten(pieces)| < 0x2000_0000_0000_0000
    ensures hash == Sha1(Flatten(pieces))
  {
    var s := new SHA1Sum();
    for i := 0 to |pieces|
      invariant s.Valid() && !s.mDone && s.message == Flatten(pieces[..i])
      invariant fresh(s) && fresh(s.mB) && fresh(s.mH)
    {
      assert pieces[..i + 1][..i] == pieces[..i];
      s.Update(pieces[i]);
    }
    assert pieces[..|pieces|] == pieces;
    hash := s.Finish();
  }
}
