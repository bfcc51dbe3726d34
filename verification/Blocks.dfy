/** Bytes, 16-byte blocks and the little-endian words the cipher works on. */
module Blocks {
  import opened Circuits
  import opened AesCt
  import opened AesBits
  import opened AesCorrect
  import opened AesKey

  type byte = bv8

  type Block = b: seq<byte> | |b| == 16 witness [0, 0, 0, 0, 0, 0, 0, 0, 0, 0, 0, 0, 0, 0, 0, 0]

  function XorByte(a: byte, b: byte): byte { a ^ b }

  function Value(b: byte): (n: nat)
    ensures n < 256
  {
    ByteBound(b);
    b as nat
  }

  lemma ByteBound(b: byte)
    ensures b as nat < 256
  {
  }

  /** Byte-wise exclusive-or; the second operand may be longer. */
  function Xor(a: seq<byte>, b: seq<byte>): (c: seq<byte>)
    requires |a| <= |b|
    ensures |c| == |a|
  {
    seq(|a|, i requires 0 <= i < |a| => XorByte(a[i], b[i]))
  }

  /** s with b written over it from offset `off` on. */
  function Splice(s: seq<byte>, off: nat, b: seq<byte>): (t: seq<byte>)
    requires off + |b| <= |s|
    ensures |t| == |s|
  {
    s[..off] + b + s[off + |b|..]
  }

  lemma SpliceNext(s: seq<byte>, off: nat, a: seq<byte>, b: seq<byte>)
    requires off + |a| + |b| <= |s|
    ensures Splice(Splice(s, off, a), off + |a|, b) == Splice(s, off, a + b)
  {
  }

  lemma SpliceEmpty(s: seq<byte>, off: nat)
    requires off <= |s|
    ensures Splice(s, off, []) == s
  {
  }

  /** Writing leaves what follows unread. */
  lemma SpliceAfter(s: seq<byte>, off: nat, a: seq<byte>, n: nat)
    requires off + |a| + n <= |s|
    ensures Splice(s, off, a)[off + |a|..off + |a| + n] == s[off + |a|..off + |a| + n]
  {
  }

  lemma SpliceAt(s: seq<byte>, off: nat, b: seq<byte>)
    requires off + |b| <= |s|
    ensures Splice(s, off, b)[off..off + |b|] == b
    ensures Splice(s, off, b)[..off] == s[..off] && Splice(s, off, b)[off + |b|..] == s[off + |b|..]
  {
  }

  lemma SlicesJoin(s: seq<byte>, i: nat, j: nat, k: nat)
    requires i <= j <= k <= |s|
    ensures s[i..j] + s[j..k] == s[i..k]
  {
  }

  lemma SliceOfSlice(s: seq<byte>, off: nat, len: nat, o: nat, n: nat)
    requires off + len <= |s| && o + n <= len
    ensures s[off..off + len][o..o + n] == s[off + o..off + o + n]
  {
    var t, u := s[off..off + len][o..o + n], s[off + o..off + o + n];
    assert forall i :: 0 <= i < n ==> t[i] == u[i];
  }

  /** The middle of three parts. */
  lemma Middle(a: seq<byte>, s: seq<byte>, b: seq<byte>, o: nat, n: nat)
    requires o + n <= |s|
    ensures (a + s + b)[|a| + o..|a| + o + n] == s[o..o + n]
  {
  }

  lemma FourParts(a: seq<byte>, b: seq<byte>, c: seq<byte>, d: seq<byte>)
    ensures var f := a + b + c + d;
            f[..|a|] == a && f[|a|..|a| + |b|] == b && f[|a| + |b|..|f| - |d|] == c && f[|f| - |d|..] == d
  {
  }

  lemma XorByteCancels(a: byte, b: byte)
    ensures XorByte(XorByte(a, b), b) == a
  {
  }

  // ---------------------------------------------------------------------------
  // Bits of a byte

  function BitOf(b: byte, k: bv8): bool { (b >> (k & 7)) & 1 == 1 }

  function Unpack(b: byte): Byte {
    Oct(BitOf(b, 0), BitOf(b, 1), BitOf(b, 2), BitOf(b, 3), BitOf(b, 4), BitOf(b, 5), BitOf(b, 6), BitOf(b, 7))
  }

  function Pack(x: Byte): byte {
    Weight(x.b0, 1) | Weight(x.b1, 2) | Weight(x.b2, 4) | Weight(x.b3, 8)
    | Weight(x.b4, 16) | Weight(x.b5, 32) | Weight(x.b6, 64) | Weight(x.b7, 128)
  }

  lemma PackUnpack(b: byte)
    ensures Pack(Unpack(b)) == b
  {
  }

  // ---------------------------------------------------------------------------
  // le32enc, le32dec

  function Le32Byte(w: bv32, r: bv8): byte { ((w >> ((8 * r) & 31)) & 0xFF) as bv8 }

  lemma Le32ByteOfDec(b0: byte, b1: byte, b2: byte, b3: byte)
    ensures var w := Le32(b0, b1, b2, b3);
            Le32Byte(w, 0) == b0 && Le32Byte(w, 1) == b1 && Le32Byte(w, 2) == b2 && Le32Byte(w, 3) == b3
  {
  }

  lemma Le32ByteBits(w: bv32, r: bv8)
    requires r < 4
    ensures Unpack(Le32Byte(w, r)) == RowByte(w, r)
  {
  }

  // ---------------------------------------------------------------------------
  // Four words as a block, a block as a state

  function WordBytes(w: bv32): (s: seq<byte>)
    ensures |s| == 4
  {
    [Le32Byte(w, 0), Le32Byte(w, 1), Le32Byte(w, 2), Le32Byte(w, 3)]
  }

  function BlockOf(w0: bv32, w1: bv32, w2: bv32, w3: bv32): Block {
    WordBytes(w0) + WordBytes(w1) + (WordBytes(w2) + WordBytes(w3))
  }

  lemma Le32ByteXor(a: bv32, b: bv32, r: bv8)
    ensures Le32Byte(a ^ b, r) == XorByte(Le32Byte(a, r), Le32Byte(b, r))
  {
  }

  lemma WordBytesXor(a: bv32, b: bv32)
    ensures WordBytes(a ^ b) == Xor(WordBytes(a), WordBytes(b))
  {
    hide Le32Byte; hide XorByte;
    Le32ByteXor(a, b, 0); Le32ByteXor(a, b, 1); Le32ByteXor(a, b, 2); Le32ByteXor(a, b, 3);
  }

  lemma XorConcat(a: seq<byte>, b: seq<byte>, c: seq<byte>, d: seq<byte>)
    requires |a| == |c| && |b| == |d|
    ensures Xor(a + b, c + d) == Xor(a, c) + Xor(b, d)
  {
    hide XorByte;
  }

  lemma BlockOfXor(a0: bv32, a1: bv32, a2: bv32, a3: bv32, b0: bv32, b1: bv32, b2: bv32, b3: bv32)
    ensures BlockOf(a0 ^ b0, a1 ^ b1, a2 ^ b2, a3 ^ b3) == Xor(BlockOf(a0, a1, a2, a3), BlockOf(b0, b1, b2, b3))
  {
    hide WordBytes; hide Xor;
    WordBytesXor(a0, b0); WordBytesXor(a1, b1); WordBytesXor(a2, b2); WordBytesXor(a3, b3);
    XorConcat(WordBytes(a0), WordBytes(a1), WordBytes(b0), WordBytes(b1));
    XorConcat(WordBytes(a2), WordBytes(a3), WordBytes(b2), WordBytes(b3));
    XorConcat(WordBytes(a0) + WordBytes(a1), WordBytes(a2) + WordBytes(a3),
              WordBytes(b0) + WordBytes(b1), WordBytes(b2) + WordBytes(b3));
  }

  /** The block in the even words, and the one in the odd words. */
  function LaneBlock(q: Words, odd: bool): Block {
    if odd then BlockOf(q.b1, q.b3, q.b5, q.b7) else BlockOf(q.b0, q.b2, q.b4, q.b6)
  }

  function StateOf(b: Block): Aes.State {
    Aes.State(Aes.Col(Unpack(b[0]), Unpack(b[1]), Unpack(b[2]), Unpack(b[3])),
              Aes.Col(Unpack(b[4]), Unpack(b[5]), Unpack(b[6]), Unpack(b[7])),
              Aes.Col(Unpack(b[8]), Unpack(b[9]), Unpack(b[10]), Unpack(b[11])),
              Aes.Col(Unpack(b[12]), Unpack(b[13]), Unpack(b[14]), Unpack(b[15])))
  }

  function PackState(s: Aes.State): Block {
    [Pack(s.c0.r0), Pack(s.c0.r1), Pack(s.c0.r2), Pack(s.c0.r3),
     Pack(s.c1.r0), Pack(s.c1.r1), Pack(s.c1.r2), Pack(s.c1.r3),
     Pack(s.c2.r0), Pack(s.c2.r1), Pack(s.c2.r2), Pack(s.c2.r3),
     Pack(s.c3.r0), Pack(s.c3.r1), Pack(s.c3.r2), Pack(s.c3.r3)]
  }

  lemma {:induction false} PackStateOf(b: Block)
    ensures PackState(StateOf(b)) == b
  {
    hide Pack; hide Unpack;
    forall x: byte ensures Pack(Unpack(x)) == x { PackUnpack(x); }
  }

  lemma LaneState(q: Words, odd: bool)
    ensures StateOf(LaneBlock(q, odd)) == Lane(Plain(q), odd)
  {
    hide Unpack; hide Le32Byte; hide RowByte;
    forall w: bv32, r: bv8 | r < 4 ensures Unpack(Le32Byte(w, r)) == RowByte(w, r) { Le32ByteBits(w, r); }
  }

  /** The AES of FIPS 197 on 16 bytes, given its round keys. */
  function AesBlock(keys: seq<Aes.State>, b: Block): Block
    requires 2 <= |keys|
  {
    PackState(Aes.Cipher(keys, StateOf(b)))
  }

  // ---------------------------------------------------------------------------
  // A compressed schedule gives both lanes the same round keys

  function RoundKeys(nr: nat, rk: seq<bv32>): (keys: seq<Aes.State>)
    requires 4 * (nr + 1) <= |rk|
    ensures |keys| == nr + 1
  {
    seq(nr + 1, u requires 0 <= u <= nr => Lane(Sliced(ExpandRound(rk, u)), false))
  }

  lemma ExpandDoubles(c: bv32)
    ensures Doubled(ExpandEven(c)) && Doubled(ExpandOdd(c))
  {
  }

  lemma DoubledBits(w: bv32, k: bv8)
    requires Doubled(w) && k & 1 == 0
    ensures Bit(w, k) == Bit(w, k + 1)
  {
  }

  lemma DoubledBytes(q: Words, k: bv8)
    requires AllDoubled(q) && k & 1 == 0
    ensures ByteAt(q, k) == ByteAt(q, k + 1)
  {
    hide Bit; hide Doubled;
    DoubledBits(q.b0, k); DoubledBits(q.b1, k); DoubledBits(q.b2, k); DoubledBits(q.b3, k);
    DoubledBits(q.b4, k); DoubledBits(q.b5, k); DoubledBits(q.b6, k); DoubledBits(q.b7, k);
  }

  lemma DoubledLanes(q: Words)
    requires AllDoubled(q)
    ensures Lane(Sliced(q), false) == Lane(Sliced(q), true)
  {
    hide ByteAt; hide AllDoubled;
    DoubledBytes(q, 0); DoubledBytes(q, 2); DoubledBytes(q, 4); DoubledBytes(q, 6);
    DoubledBytes(q, 8); DoubledBytes(q, 10); DoubledBytes(q, 12); DoubledBytes(q, 14);
    DoubledBytes(q, 16); DoubledBytes(q, 18); DoubledBytes(q, 20); DoubledBytes(q, 22);
    DoubledBytes(q, 24); DoubledBytes(q, 26); DoubledBytes(q, 28); DoubledBytes(q, 30);
  }

  lemma BothLanesHaveTheKeys(nr: nat, rk: seq<bv32>, sk: seq<bv32>, odd: bool)
    requires 4 * (nr + 1) <= |rk| && 8 * nr + 8 <= |sk|
    requires forall u | 0 <= u <= nr :: KeyWords(sk, u) == ExpandRound(rk, u)
    ensures LaneKeys(nr, sk, odd) == RoundKeys(nr, rk)
  {
    hide ExpandEven; hide ExpandOdd; hide Lane; hide Sliced; hide KeyWords; hide Doubled;
    forall u: nat | u <= nr ensures LaneKeys(nr, sk, odd)[u] == RoundKeys(nr, rk)[u] {
      forall c: bv32 ensures Doubled(ExpandEven(c)) && Doubled(ExpandOdd(c)) { ExpandDoubles(c); }
      DoubledLanes(ExpandRound(rk, u));
    }
  }

  /** Transform to bitslice, encrypt, transform back: both lanes hold the AES of what they held. */
  lemma PairIsAes(nr: nat, rk: seq<bv32>, sk: seq<bv32>, q: Words, odd: bool)
    requires 1 <= nr && 4 * (nr + 1) <= |rk| && 8 * nr + 8 <= |sk|
    requires forall u | 0 <= u <= nr :: KeyWords(sk, u) == ExpandRound(rk, u)
    ensures LaneBlock(Ortho(Encrypt(nr, sk, Ortho(q))), odd) == AesBlock(RoundKeys(nr, rk), LaneBlock(q, odd))
  {
    hide LaneBlock; hide Ortho; hide Encrypt; hide StateOf; hide PackState; hide Aes.Cipher; hide Lane; hide Plain;
    var p := Ortho(Encrypt(nr, sk, Ortho(q)));
    BothLanesHaveTheKeys(nr, rk, sk, odd);
    EncryptPairIsCipher(nr, sk, q, odd);
    LaneState(q, odd);
    LaneState(p, odd);
    PackStateOf(LaneBlock(p, odd));
  }

  // ---------------------------------------------------------------------------
  // From the bytes of a key

  predicate KeySize(n: nat) { n == 16 || n == 24 || n == 32 }

  /** The key as the columns that key expansion starts from. */
  function KeyColumns(key: seq<byte>): (c: seq<Aes.Col<Byte>>)
    requires KeySize(|key|)
    ensures |c| == |key| / 4
  {
    seq(|key| / 4, i requires 0 <= i < |key| / 4 =>
      Aes.Col(Unpack(key[4 * i]), Unpack(key[4 * i + 1]), Unpack(key[4 * i + 2]), Unpack(key[4 * i + 3])))
  }

  /** The round keys of FIPS 197 for the key. */
  function ExpandedKey(key: seq<byte>): (keys: seq<Aes.State>)
    requires KeySize(|key|)
    ensures |keys| == |key| / 4 + 7
  {
    seq(|key| / 4 + 7, u requires 0 <= u < |key| / 4 + 7 => Aes.RoundKey(KeyColumns(key), u))
  }

  /** AES under the bytes of a key. */
  function AesOf(key: seq<byte>): Block -> Block
    requires KeySize(|key|)
  {
    b => AesBlock(ExpandedKey(key), b)
  }

  lemma KeyColumn(b0: byte, b1: byte, b2: byte, b3: byte)
    ensures ColOf(Le32(b0, b1, b2, b3)) == Aes.Col(Unpack(b0), Unpack(b1), Unpack(b2), Unpack(b3))
  {
    hide Unpack; hide Le32Byte; hide RowByte; hide Le32;
    var w := Le32(b0, b1, b2, b3);
    Le32ByteOfDec(b0, b1, b2, b3);
    Le32ByteBits(w, 0); Le32ByteBits(w, 1); Le32ByteBits(w, 2); Le32ByteBits(w, 3);
  }

  lemma KeyColumnsOf(key: seq<byte>)
    requires KeySize(|key|)
    ensures FipsKey(KeyOf(key)) == KeyColumns(key)
  {
    hide Unpack; hide ColOf; hide Le32;
    forall i | 0 <= i < |key| / 4 ensures FipsKey(KeyOf(key))[i] == KeyColumns(key)[i] {
      KeyColumn(key[4 * i], key[4 * i + 1], key[4 * i + 2], key[4 * i + 3]);
    }
  }

  /** A compressed schedule of the key stands for its FIPS 197 expansion. */
  lemma ScheduleExpandsKey(key: seq<byte>, rk: seq<bv32>)
    requires KeySize(|key|) && |key| + 28 <= |rk|
    requires forall u | 0 <= u <= |key| / 4 + 6 :: Holds(rk, u, RoundWords(KeyOf(key), u))
    ensures RoundKeys(|key| / 4 + 6, rk) == ExpandedKey(key)
  {
    hide Holds; hide RoundWords; hide Lane; hide Sliced; hide ExpandRound; hide KeyOf; hide Aes.RoundKey;
    hide KeyColumns;
    KeyColumnsOf(key);
    forall u: nat | u <= |key| / 4 + 6 ensures RoundKeys(|key| / 4 + 6, rk)[u] == ExpandedKey(key)[u] {
      ScheduleIsFips(KeyOf(key), rk, u, false);
    }
  }
}
