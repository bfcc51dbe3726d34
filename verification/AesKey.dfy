/**
 * The key schedule of aes_ct.c: its words are those of the key expansion of FIPS 197, and the compressed form that is
 * stored gives them back.
 */
module AesKey {
  import opened Circuits
  import opened AesCt
  import opened AesBits
  import opened AesCorrect

  const RCON: seq<bv32> := [0x01, 0x02, 0x04, 0x08, 0x10, 0x20, 0x40, 0x80, 0x1B, 0x36]

  function Spread(x: bv32): Words { Oct(x, x, x, x, x, x, x, x) }

  /** sub_word. */
  function SubWord(x: bv32): bv32 { Ortho(Sbox(Ortho(Spread(x)), WORD)).b0 }

  function RotWord(x: bv32): bv32 { (x << 24) | (x >> 8) }

  predicate KeyLength(nk: nat) { nk == 4 || nk == 6 || nk == 8 }

  /** Words 0 .. 4*nr + 3, with nr == nk + 6 */
  function ScheduleSize(nk: nat): nat { 4 * (nk + 7) }

  /** What is added to word i - nk to give word i == nk * (k + 1) + j. */
  function TempAt(prev: bv32, nk: nat, j: nat, k: nat): bv32
    requires k < 10
  {
    if j == 0 then SubWord(RotWord(prev)) ^ RCON[k]
    else if nk > 6 && j == 4 then SubWord(prev)
    else prev
  }

  function Temp(prev: bv32, nk: nat, i: nat): bv32
    requires KeyLength(nk) && nk <= i < ScheduleSize(nk)
  {
    TempAt(prev, nk, i % nk, i / nk - 1)
  }

  /** Word i of the schedule. */
  function SchedWord(key: seq<bv32>, i: nat): bv32
    requires KeyLength(|key|) && i < ScheduleSize(|key|)
    decreases i
  {
    if i < |key| then key[i]
    else SchedWord(key, i - |key|) ^ Temp(SchedWord(key, i - 1), |key|, i)
  }

  /** The loop of br_aes_ct_keysched carries i as nk * (k + 1) + j. */
  predicate Counts(nk: nat, i: nat, j: nat, k: nat) {
    j < nk && i == nk * (k + 1) + j
  }

  lemma CountsStart(nk: nat)
    requires KeyLength(nk)
    ensures Counts(nk, nk, 0, 0)
  {
  }

  lemma CountsNext(nk: nat, i: nat, j: nat, k: nat)
    requires KeyLength(nk) && Counts(nk, i, j, k)
    ensures if j + 1 == nk then Counts(nk, i + 1, 0, k + 1) else Counts(nk, i + 1, j + 1, k)
  {
  }

  lemma Position(nk: nat, i: nat, j: nat, k: nat)
    requires KeyLength(nk) && Counts(nk, i, j, k) && i < ScheduleSize(nk)
    ensures nk <= i && i % nk == j && i / nk == k + 1 && k < 10
  {
  }

  lemma FirstWords(key: seq<bv32>, i: nat)
    requires KeyLength(|key|) && i < |key|
    ensures SchedWord(key, i) == key[i]
  {
  }

  lemma NextWord(key: seq<bv32>, i: nat, j: nat, k: nat)
    requires KeyLength(|key|) && Counts(|key|, i, j, k) && i < ScheduleSize(|key|)
    ensures |key| <= i && k < 10
    ensures SchedWord(key, i) == SchedWord(key, i - |key|) ^ TempAt(SchedWord(key, i - 1), |key|, j, k)
  {
    hide TempAt;
    Position(|key|, i, j, k);
  }

  // ---------------------------------------------------------------------------
  // The words are those of FIPS 197

  function ColOf(w: bv32): Aes.Col<Byte> { Aes.Col(RowByte(w, 0), RowByte(w, 1), RowByte(w, 2), RowByte(w, 3)) }

  lemma SubWordByte(x: bv32, r: bv8)
    requires r < 4
    ensures RowByte(SubWord(x), r) == SubByte(RowByte(x, r))
  {
    hide RowByte; hide Ortho; hide Sbox; hide ByteAt; hide SubByte;
    var w := Spread(x);
    var q := Sbox(Ortho(w), WORD);
    OrthoRow(w, r);
    OrthoRow(q, r);
    SboxByte(Ortho(w), 8 * r);
  }

  lemma SubWordIsFips(x: bv32)
    ensures ColOf(SubWord(x)) == Aes.SubWord(ColOf(x))
  {
    hide RowByte; hide SubWord; hide SubByte;
    SubWordByte(x, 0); SubWordByte(x, 1); SubWordByte(x, 2); SubWordByte(x, 3);
  }

  lemma RotWordByte(x: bv32, r: bv8)
    requires r < 4
    ensures RowByte(RotWord(x), r) == RowByte(x, (r + 1) & 3)
  {}

  lemma RotWordIsFips(x: bv32)
    ensures ColOf(RotWord(x)) == Aes.RotWord(ColOf(x))
  {
    hide RowByte; hide RotWord;
    RotWordByte(x, 0); RotWordByte(x, 1); RotWordByte(x, 2); RotWordByte(x, 3);
  }

  lemma XorIsFips(a: bv32, b: bv32)
    ensures ColOf(a ^ b) == Aes.AddWord(ColOf(a), ColOf(b))
  {
    hide RowByte; hide Add;
    RowXor(a, b, 0); RowXor(a, b, 1); RowXor(a, b, 2); RowXor(a, b, 3);
  }

  lemma SmallWord(x: bv32)
    requires x < 256
    ensures RowByte(x, 1) == ZERO && RowByte(x, 2) == ZERO && RowByte(x, 3) == ZERO
  {}

  lemma RconDoubles(k: nat)
    requires 1 <= k < 10
    ensures RowByte(RCON[k], 0) == XTime(RowByte(RCON[k - 1], 0), BOOL.xor)
  {
  }

  lemma {:induction false} RconIsFips(k: nat)
    requires k < 10
    ensures ColOf(RCON[k]) == Aes.Col(Aes.RoundConstant(k + 1), ZERO, ZERO, ZERO)
  {
    SmallWord(RCON[k]);
    if k > 0 {
      hide RowByte;
      RconIsFips(k - 1);
      RconDoubles(k);
    }
  }

  lemma TempIsFips(prev: bv32, nk: nat, i: nat)
    requires KeyLength(nk) && nk <= i < ScheduleSize(nk)
    ensures ColOf(Temp(prev, nk, i)) == Aes.Temp(ColOf(prev), nk, i)
  {
    hide ColOf; hide SubWord; hide RotWord; hide Aes.SubWord; hide Aes.RotWord; hide Aes.AddWord;
    hide Aes.RoundConstant;
    if i % nk == 0 {
      RotWordIsFips(prev);
      SubWordIsFips(RotWord(prev));
      XorIsFips(SubWord(RotWord(prev)), RCON[i / nk - 1]);
      RconIsFips(i / nk - 1);
    } else {
      SubWordIsFips(prev);
    }
  }

  function FipsKey(key: seq<bv32>): seq<Aes.Col<Byte>> {
    seq(|key|, j requires 0 <= j < |key| => ColOf(key[j]))
  }

  lemma {:induction false} SchedIsFips(key: seq<bv32>, i: nat)
    requires KeyLength(|key|) && i < ScheduleSize(|key|)
    ensures ColOf(SchedWord(key, i)) == Aes.KeyWord(FipsKey(key), i)
    decreases i
  {
    hide ColOf; hide Temp; hide Aes.Temp; hide Aes.AddWord;
    if i >= |key| {
      SchedIsFips(key, i - 1);
      SchedIsFips(key, i - |key|);
      TempIsFips(SchedWord(key, i - 1), |key|, i);
      XorIsFips(SchedWord(key, i - |key|), Temp(SchedWord(key, i - 1), |key|, i));
    }
  }

  // ---------------------------------------------------------------------------
  // Two bitsliced words of a round key are stored in one

  /** Every even bit equals the odd bit next to it. */
  predicate Doubled(w: bv32) { (w & 0x5555_5555) << 1 == w & 0xAAAA_AAAA }

  function Compress(a: bv32, b: bv32): bv32 { (a & 0x5555_5555) | (b & 0xAAAA_AAAA) }

  function ExpandEven(c: bv32): bv32 { var x := c & 0x5555_5555; x | (x << 1) }

  function ExpandOdd(c: bv32): bv32 { var y := c & 0xAAAA_AAAA; y | (y >> 1) }

  lemma ExpandCompress(a: bv32, b: bv32)
    requires Doubled(a) && Doubled(b)
    ensures ExpandEven(Compress(a, b)) == a && ExpandOdd(Compress(a, b)) == b
  {}

  lemma DoubledSwap2(a: bv32)
    ensures Doubled(Lo(a, a, 0x5555_5555, 1)) && Doubled(Hi(a, a, 0xAAAA_AAAA, 1))
  {}

  lemma DoubledSwap4(a: bv32, b: bv32)
    requires Doubled(a) && Doubled(b)
    ensures Doubled(Lo(a, b, 0x3333_3333, 2)) && Doubled(Hi(a, b, 0xCCCC_CCCC, 2))
  {}

  lemma DoubledSwap8(a: bv32, b: bv32)
    requires Doubled(a) && Doubled(b)
    ensures Doubled(Lo(a, b, 0x0F0F_0F0F, 4)) && Doubled(Hi(a, b, 0xF0F0_F0F0, 4))
  {}

  /** Two copies of four words, interleaved. */
  function Twice(w0: bv32, w1: bv32, w2: bv32, w3: bv32): Words { Oct(w0, w0, w1, w1, w2, w2, w3, w3) }

  predicate AllDoubled(q: Words) {
    Doubled(q.b0) && Doubled(q.b1) && Doubled(q.b2) && Doubled(q.b3)
    && Doubled(q.b4) && Doubled(q.b5) && Doubled(q.b6) && Doubled(q.b7)
  }

  lemma OrthoTwiceDoubled(w0: bv32, w1: bv32, w2: bv32, w3: bv32)
    ensures AllDoubled(Ortho(Twice(w0, w1, w2, w3)))
  {
    hide Lo; hide Hi; hide Doubled;
    DoubledSwap2(w0); DoubledSwap2(w1); DoubledSwap2(w2); DoubledSwap2(w3);
    var a := Swap2(Twice(w0, w1, w2, w3));
    DoubledSwap4(a.b0, a.b2); DoubledSwap4(a.b1, a.b3); DoubledSwap4(a.b4, a.b6); DoubledSwap4(a.b5, a.b7);
    var b := Swap4(a);
    DoubledSwap8(b.b0, b.b4); DoubledSwap8(b.b1, b.b5); DoubledSwap8(b.b2, b.b6); DoubledSwap8(b.b3, b.b7);
  }

  // ---------------------------------------------------------------------------
  // Round keys

  /** le32dec. */
  function Le32(b0: bv8, b1: bv8, b2: bv8, b3: bv8): bv32 {
    b0 as bv32 | (b1 as bv32 << 8) | (b2 as bv32 << 16) | (b3 as bv32 << 24)
  }

  /** The words of a key. */
  function KeyOf(key: seq<bv8>): (k: seq<bv32>)
    ensures |k| == |key| / 4
  {
    seq(|key| / 4, i requires 0 <= i < |key| / 4 => Le32(key[4 * i], key[4 * i + 1], key[4 * i + 2], key[4 * i + 3]))
  }

  /** The eight bitsliced words of round key u, the same key in both lanes. */
  function RoundWords(key: seq<bv32>, u: nat): Words
    requires KeyLength(|key|) && u <= |key| + 6
  {
    Ortho(Twice(SchedWord(key, 4 * u), SchedWord(key, 4 * u + 1), SchedWord(key, 4 * u + 2), SchedWord(key, 4 * u + 3)))
  }

  /** Four compressed words hold the eight words of a round key. */
  predicate Holds(comp: seq<bv32>, u: nat, q: Words)
    requires 4 * u + 4 <= |comp|
  {
    && comp[4 * u] == Compress(q.b0, q.b1) && comp[4 * u + 1] == Compress(q.b2, q.b3)
    && comp[4 * u + 2] == Compress(q.b4, q.b5) && comp[4 * u + 3] == Compress(q.b6, q.b7)
  }

  /** br_aes_ct_skey_expand on one round. */
  function ExpandRound(comp: seq<bv32>, u: nat): Words
    requires 4 * u + 4 <= |comp|
  {
    Oct(ExpandEven(comp[4 * u]), ExpandOdd(comp[4 * u]), ExpandEven(comp[4 * u + 1]), ExpandOdd(comp[4 * u + 1]),
        ExpandEven(comp[4 * u + 2]), ExpandOdd(comp[4 * u + 2]),
        ExpandEven(comp[4 * u + 3]), ExpandOdd(comp[4 * u + 3]))
  }

  lemma ExpandRestores(comp: seq<bv32>, u: nat, q: Words)
    requires 4 * u + 4 <= |comp| && Holds(comp, u, q) && AllDoubled(q)
    ensures ExpandRound(comp, u) == q
  {
    hide Compress; hide ExpandEven; hide ExpandOdd; hide Doubled;
    ExpandCompress(q.b0, q.b1); ExpandCompress(q.b2, q.b3); ExpandCompress(q.b4, q.b5); ExpandCompress(q.b6, q.b7);
  }

  /** Expanding a compressed schedule restores it, and both lanes of round u hold the FIPS 197 round key. */
  lemma ScheduleIsFips(key: seq<bv32>, comp: seq<bv32>, u: nat, odd: bool)
    requires KeyLength(|key|) && u <= |key| + 6 && 4 * u + 4 <= |comp|
    requires Holds(comp, u, RoundWords(key, u))
    ensures ExpandRound(comp, u) == RoundWords(key, u)
    ensures Lane(Sliced(ExpandRound(comp, u)), odd) == Aes.RoundKey(FipsKey(key), u)
  {
    hide Ortho; hide RowByte; hide SchedWord; hide Aes.KeyWord; hide AllDoubled; hide Sliced; hide ExpandRound;
    hide Holds;
    var w0, w1, w2, w3 := SchedWord(key, 4 * u), SchedWord(key, 4 * u + 1),
                          SchedWord(key, 4 * u + 2), SchedWord(key, 4 * u + 3);
    OrthoTwiceDoubled(w0, w1, w2, w3);
    ExpandRestores(comp, u, RoundWords(key, u));
    OrthoSlices(Twice(w0, w1, w2, w3));
    SchedIsFips(key, 4 * u); SchedIsFips(key, 4 * u + 1); SchedIsFips(key, 4 * u + 2); SchedIsFips(key, 4 * u + 3);
  }
}
