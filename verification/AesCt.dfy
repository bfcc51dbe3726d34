/** The bitsliced AES of aes_ct.c, aes_ct_enc.c and aes_ct_dec.c: eight 32-bit words hold
    two blocks, word i holding bit i of all 32 bytes. */
module AesCt {
  import opened Circuits

  type Words = Oct<bv32>

  // ---------------------------------------------------------------------------
  // The transformations as functions of the eight words

  function Lo(a: bv32, b: bv32, cl: bv32, s: bv8): bv32
    requires s <= 32
  {
    (a & cl) | ((b & cl) << s)
  }

  function Hi(a: bv32, b: bv32, ch: bv32, s: bv8): bv32
    requires s <= 32
  {
    ((a & ch) >> s) | (b & ch)
  }

  function Swap2(q: Words): Words {
    Oct(Lo(q.b0, q.b1, 0x5555_5555, 1), Hi(q.b0, q.b1, 0xAAAA_AAAA, 1),
        Lo(q.b2, q.b3, 0x5555_5555, 1), Hi(q.b2, q.b3, 0xAAAA_AAAA, 1),
        Lo(q.b4, q.b5, 0x5555_5555, 1), Hi(q.b4, q.b5, 0xAAAA_AAAA, 1),
        Lo(q.b6, q.b7, 0x5555_5555, 1), Hi(q.b6, q.b7, 0xAAAA_AAAA, 1))
  }

  function Swap4(q: Words): Words {
    Oct(Lo(q.b0, q.b2, 0x3333_3333, 2), Lo(q.b1, q.b3, 0x3333_3333, 2),
        Hi(q.b0, q.b2, 0xCCCC_CCCC, 2), Hi(q.b1, q.b3, 0xCCCC_CCCC, 2),
        Lo(q.b4, q.b6, 0x3333_3333, 2), Lo(q.b5, q.b7, 0x3333_3333, 2),
        Hi(q.b4, q.b6, 0xCCCC_CCCC, 2), Hi(q.b5, q.b7, 0xCCCC_CCCC, 2))
  }

  function Swap8(q: Words): Words {
    Oct(Lo(q.b0, q.b4, 0x0F0F_0F0F, 4), Lo(q.b1, q.b5, 0x0F0F_0F0F, 4),
        Lo(q.b2, q.b6, 0x0F0F_0F0F, 4), Lo(q.b3, q.b7, 0x0F0F_0F0F, 4),
        Hi(q.b0, q.b4, 0xF0F0_F0F0, 4), Hi(q.b1, q.b5, 0xF0F0_F0F0, 4),
        Hi(q.b2, q.b6, 0xF0F0_F0F0, 4), Hi(q.b3, q.b7, 0xF0F0_F0F0, 4))
  }

  /** br_aes_ct_ortho. */
  function Ortho(q: Words): Words {
    Swap8(Swap4(Swap2(q)))
  }

  function ShiftRow(x: bv32): bv32 {
    (x & 0x0000_00FF)
    | ((x & 0x0000_FC00) >> 2) | ((x & 0x0000_0300) << 6)
    | ((x & 0x00F0_0000) >> 4) | ((x & 0x000F_0000) << 4)
    | ((x & 0xC000_0000) >> 6) | ((x & 0x3F00_0000) << 2)
  }

  function InvShiftRow(x: bv32): bv32 {
    (x & 0x0000_00FF)
    | ((x & 0x0000_3F00) << 2) | ((x & 0x0000_C000) >> 6)
    | ((x & 0x000F_0000) << 4) | ((x & 0x00F0_0000) >> 4)
    | ((x & 0x0300_0000) << 6) | ((x & 0xFC00_0000) >> 2)
  }

  function ShiftRows(q: Words): Words { Map(q, ShiftRow) }

  function InvShiftRows(q: Words): Words { Map(q, InvShiftRow) }

  function Ror8(x: bv32): bv32 { (x >> 8) | (x << 24) }

  function Ror16(x: bv32): bv32 { (x << 16) | (x >> 16) }

  /** What mix_columns needs of a word: exclusive-or and two rotations. */
  datatype Lin<!T> = Lin(xor: (T, T) -> T, ror8: T -> T, ror16: T -> T)

  const LWORD: Lin<bv32> := Lin((a, b) => a ^ b, Ror8, Ror16)

  function Xor3<T>(a: T, b: T, c: T, o: Lin<T>): T { o.xor(o.xor(a, b), c) }

  function Xor4<T>(a: T, b: T, c: T, d: T, o: Lin<T>): T { o.xor(o.xor(a, b), o.xor(c, d)) }

  function Xor5<T>(a: T, b: T, c: T, d: T, e: T, o: Lin<T>): T { o.xor(Xor4(a, b, c, d, o), e) }

  /** mix_columns. */
  function MixColumns<T>(q: Oct<T>, o: Lin<T>): Oct<T> {
    var q0, q1, q2, q3 := q.b0, q.b1, q.b2, q.b3;
    var q4, q5, q6, q7 := q.b4, q.b5, q.b6, q.b7;
    var r0, r1, r2, r3 := o.ror8(q0), o.ror8(q1), o.ror8(q2), o.ror8(q3);
    var r4, r5, r6, r7 := o.ror8(q4), o.ror8(q5), o.ror8(q6), o.ror8(q7);
    Oct(Xor4(q7, r7, r0, o.ror16(o.xor(q0, r0)), o),
        o.xor(Xor5(q0, r0, q7, r7, r1, o), o.ror16(o.xor(q1, r1))),
        Xor4(q1, r1, r2, o.ror16(o.xor(q2, r2)), o),
        o.xor(Xor5(q2, r2, q7, r7, r3, o), o.ror16(o.xor(q3, r3))),
        o.xor(Xor5(q3, r3, q7, r7, r4, o), o.ror16(o.xor(q4, r4))),
        Xor4(q4, r4, r5, o.ror16(o.xor(q5, r5)), o),
        Xor4(q5, r5, r6, o.ror16(o.xor(q6, r6)), o),
        Xor4(q6, r6, r7, o.ror16(o.xor(q7, r7)), o))
  }

  /** inv_mix_columns. */
  function InvMixColumns<T>(q: Oct<T>, o: Lin<T>): Oct<T> {
    var q0, q1, q2, q3 := q.b0, q.b1, q.b2, q.b3;
    var q4, q5, q6, q7 := q.b4, q.b5, q.b6, q.b7;
    var r0, r1, r2, r3 := o.ror8(q0), o.ror8(q1), o.ror8(q2), o.ror8(q3);
    var r4, r5, r6, r7 := o.ror8(q4), o.ror8(q5), o.ror8(q6), o.ror8(q7);
    Oct(Xor3(Xor3(q5, q6, q7, o), Xor3(r0, r5, r7, o), o.ror16(Xor5(q0, q5, q6, r0, r5, o)), o),
        Xor3(o.xor(q0, q5), Xor5(r0, r1, r5, r6, r7, o),
             o.ror16(o.xor(Xor3(q1, q5, q7, o), Xor3(r1, r5, r6, o))), o),
        Xor3(Xor3(q0, q1, q6, o), Xor4(r1, r2, r6, r7, o),
             o.ror16(o.xor(Xor3(q0, q2, q6, o), Xor3(r2, r6, r7, o))), o),
        Xor3(Xor5(q0, q1, q2, q5, q6, o), Xor4(r0, r2, r3, r5, o),
             o.ror16(Xor3(Xor3(q0, q1, q3, o), Xor3(q5, q6, q7, o), Xor4(r0, r3, r5, r7, o), o)), o),
        Xor3(Xor4(q1, q2, q3, q5, o), o.xor(Xor4(r1, r3, r4, r5, o), o.xor(r6, r7)),
             o.ror16(o.xor(Xor5(q1, q2, q4, q5, q7, o), Xor4(r1, r4, r5, r6, o))), o),
        Xor3(Xor4(q2, q3, q4, q6, o), Xor5(r2, r4, r5, r6, r7, o),
             o.ror16(o.xor(Xor4(q2, q3, q5, q6, o), Xor4(r2, r5, r6, r7, o))), o),
        Xor3(Xor4(q3, q4, q5, q7, o), Xor4(r3, r5, r6, r7, o),
             o.ror16(o.xor(Xor4(q3, q4, q6, q7, o), Xor3(r3, r6, r7, o))), o),
        Xor3(Xor3(q4, q5, q6, o), Xor3(r4, r6, r7, o), o.ror16(Xor5(q4, q5, q7, r4, r7, o)), o))
  }

  /** add_round_key. */
  function AddRoundKey(q: Words, k: Words): Words { Plus(q, k, WORD.xor) }

  // ---------------------------------------------------------------------------
  // Encryption and decryption under an expanded key schedule

  function WordsAt(s: seq<bv32>, off: nat): Words
    requires off + 8 <= |s|
  {
    Oct(s[off], s[off + 1], s[off + 2], s[off + 3], s[off + 4], s[off + 5], s[off + 6], s[off + 7])
  }

  function KeyWords(sk: seq<bv32>, u: nat): Words
    requires 8 * u + 8 <= |sk|
  {
    WordsAt(sk, 8 * u)
  }

  /** The state after round u of br_aes_ct_bitslice_encrypt. */
  function EncryptRounds(sk: seq<bv32>, q: Words, u: nat): Words
    requires 8 * u + 8 <= |sk|
  {
    if u == 0 then AddRoundKey(q, KeyWords(sk, 0))
    else AddRoundKey(MixColumns(ShiftRows(Sbox(EncryptRounds(sk, q, u - 1), WORD)), LWORD), KeyWords(sk, u))
  }

  /** br_aes_ct_bitslice_encrypt. */
  function Encrypt(nr: nat, sk: seq<bv32>, q: Words): Words
    requires 1 <= nr && 8 * nr + 8 <= |sk|
  {
    AddRoundKey(ShiftRows(Sbox(EncryptRounds(sk, q, nr - 1), WORD)), KeyWords(sk, nr))
  }

  /** The state of br_aes_ct_bitslice_decrypt when its loop counter is u. */
  function DecryptRounds(nr: nat, sk: seq<bv32>, q: Words, u: nat): Words
    requires u < nr && 8 * nr + 8 <= |sk|
    decreases nr - u
  {
    if u == nr - 1 then AddRoundKey(q, KeyWords(sk, nr))
    else
      var p := InvSbox(InvShiftRows(DecryptRounds(nr, sk, q, u + 1)), WORD);
      InvMixColumns(AddRoundKey(p, KeyWords(sk, u + 1)), LWORD)
  }

  /** br_aes_ct_bitslice_decrypt. */
  function Decrypt(nr: nat, sk: seq<bv32>, q: Words): Words
    requires 1 <= nr && 8 * nr + 8 <= |sk|
  {
    AddRoundKey(InvSbox(InvShiftRows(DecryptRounds(nr, sk, q, 0)), WORD), KeyWords(sk, 0))
  }

  ghost predicate LinHom<T(!new), U(!new)>(h: T -> U, s: Lin<T>, t: Lin<U>) {
    && (forall a, b :: h(s.xor(a, b)) == t.xor(h(a), h(b)))
    && (forall a :: h(s.ror8(a)) == t.ror8(h(a)))
    && (forall a :: h(s.ror16(a)) == t.ror16(h(a)))
  }

  lemma MixColumnsNatural<T(!new), U(!new)>(q: Oct<T>, h: T -> U, s: Lin<T>, t: Lin<U>)
    requires LinHom(h, s, t)
    ensures Map(MixColumns(q, s), h) == MixColumns(Map(q, h), t)
  {
  }

  lemma InvMixColumnsNatural<T(!new), U(!new)>(q: Oct<T>, h: T -> U, s: Lin<T>, t: Lin<U>)
    requires LinHom(h, s, t)
    ensures Map(InvMixColumns(q, s), h) == InvMixColumns(Map(q, h), t)
  {
  }
}
