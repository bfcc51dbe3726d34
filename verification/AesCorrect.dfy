/**
 * Two results about the bitsliced AES of AesCt: decryption undoes encryption for every round-key schedule, and
 * encryption is the cipher of FIPS 197 in each of the two blocks that the eight words hold.
 */
module AesCorrect {
  import opened Circuits
  import opened Aes
  import opened AesBits

  lemma AddRoundKeyTwice(q: AesCt.Words, k: AesCt.Words)
    ensures AesCt.AddRoundKey(AesCt.AddRoundKey(q, k), k) == q
  {
    hide ByteAt; hide AesCt.AddRoundKey;
    var p := AesCt.AddRoundKey(q, k);
    forall i: bv8 | i < 32 ensures ByteAt(AesCt.AddRoundKey(p, k), i) == ByteAt(q, i) {
      AddRoundKeyByte(p, k, i);
      AddRoundKeyByte(q, k, i);
    }
    SameWords(AesCt.AddRoundKey(p, k), q);
  }

  /** Undoing the rounds from the last one down to round u. */
  lemma {:induction false} DecryptRoundsUndo(nr: nat, sk: seq<bv32>, q: AesCt.Words, u: nat)
    requires u < nr && 8 * nr + 8 <= |sk|
    ensures AesCt.DecryptRounds(nr, sk, AesCt.Encrypt(nr, sk, q), u) ==
            AesCt.ShiftRows(Sbox(AesCt.EncryptRounds(sk, q, u), WORD))
    decreases nr - u
  {
    hide AesCt.AddRoundKey; hide Sbox; hide InvSbox; hide AesCt.MixColumns; hide AesCt.InvMixColumns;
    hide AesCt.ShiftRows; hide AesCt.InvShiftRows; hide AesCt.KeyWords;
    if u == nr - 1 {
      AddRoundKeyTwice(AesCt.ShiftRows(Sbox(AesCt.EncryptRounds(sk, q, u), WORD)), AesCt.KeyWords(sk, nr));
    } else {
      DecryptRoundsUndo(nr, sk, q, u + 1);
      var e := AesCt.EncryptRounds(sk, q, u + 1);
      InvShiftRowsUndoesShiftRows(Sbox(e, WORD));
      InvSboxUndoesSbox(e);
      var m := AesCt.ShiftRows(Sbox(AesCt.EncryptRounds(sk, q, u), WORD));
      AddRoundKeyTwice(AesCt.MixColumns(m, AesCt.LWORD), AesCt.KeyWords(sk, u + 1));
      InvMixColumnsUndoesMixColumns(m);
    }
  }

  /** br_aes_ct_bitslice_decrypt undoes br_aes_ct_bitslice_encrypt, whatever the round keys. */
  lemma DecryptUndoesEncrypt(nr: nat, sk: seq<bv32>, q: AesCt.Words)
    requires 1 <= nr && 8 * nr + 8 <= |sk|
    ensures AesCt.Decrypt(nr, sk, AesCt.Encrypt(nr, sk, q)) == q
  {
    hide AesCt.AddRoundKey; hide Sbox; hide InvSbox; hide AesCt.ShiftRows; hide AesCt.InvShiftRows; hide AesCt.KeyWords;
    DecryptRoundsUndo(nr, sk, q, 0);
    var e := AesCt.EncryptRounds(sk, q, 0);
    InvShiftRowsUndoesShiftRows(Sbox(e, WORD));
    InvSboxUndoesSbox(e);
    AddRoundKeyTwice(q, AesCt.KeyWords(sk, 0));
  }

  // ---------------------------------------------------------------------------
  // The two blocks

  /** One of the two states that the words hold: the even bytes of each row, or the odd ones. */
  function Lane(s: Col<Oct<Byte>>, odd: bool): State {
    if odd then
      State(Col(s.r0.b1, s.r1.b1, s.r2.b1, s.r3.b1), Col(s.r0.b3, s.r1.b3, s.r2.b3, s.r3.b3),
            Col(s.r0.b5, s.r1.b5, s.r2.b5, s.r3.b5), Col(s.r0.b7, s.r1.b7, s.r2.b7, s.r3.b7))
    else
      State(Col(s.r0.b0, s.r1.b0, s.r2.b0, s.r3.b0), Col(s.r0.b2, s.r1.b2, s.r2.b2, s.r3.b2),
            Col(s.r0.b4, s.r1.b4, s.r2.b4, s.r3.b4), Col(s.r0.b6, s.r1.b6, s.r2.b6, s.r3.b6))
  }

  /** The words as bitslice: byte k at bit position k. */
  function Sliced(q: AesCt.Words): Col<Oct<Byte>> { Col(Slice(q, 0), Slice(q, 1), Slice(q, 2), Slice(q, 3)) }

  /** The words as they are loaded: byte r of each word. */
  function Plain(q: AesCt.Words): Col<Oct<Byte>> { Col(Row(q, 0), Row(q, 1), Row(q, 2), Row(q, 3)) }

  lemma TransposeTwice<T>(m: Oct<Oct<T>>) ensures Transpose(Transpose(m)) == m {}

  lemma OrthoRow(q: AesCt.Words, r: bv8)
    requires r < 4
    ensures Slice(AesCt.Ortho(q), r) == Row(q, r)
    ensures Row(AesCt.Ortho(q), r) == Slice(q, r)
  {
    hide AesCt.Ortho; hide Row; hide Slice; hide Transpose;
    OrthoTransposes(q, r);
    SliceIsTransposedRow(q, r);
    SliceIsTransposedRow(AesCt.Ortho(q), r);
    TransposeTwice(Row(q, r));
  }

  /** Orthogonalization goes from the one reading to the other, and back. */
  lemma OrthoSlices(q: AesCt.Words)
    ensures Sliced(AesCt.Ortho(q)) == Plain(q) && Plain(AesCt.Ortho(q)) == Sliced(q)
  {
    hide AesCt.Ortho; hide Row; hide Slice;
    OrthoRow(q, 0); OrthoRow(q, 1); OrthoRow(q, 2); OrthoRow(q, 3);
  }

  lemma SboxLane(q: AesCt.Words, odd: bool)
    ensures Lane(Sliced(Sbox(q, WORD)), odd) == SubBytes(Lane(Sliced(q), odd))
  {
    hide ByteAt; hide Sbox; hide SubByte;
    forall k: bv8 ensures ByteAt(Sbox(q, WORD), k) == SubByte(ByteAt(q, k)) { SboxByte(q, k); }
  }

  lemma AddRoundKeyLane(q: AesCt.Words, key: AesCt.Words, odd: bool)
    ensures Lane(Sliced(AesCt.AddRoundKey(q, key)), odd) == AddRoundKey(Lane(Sliced(q), odd), Lane(Sliced(key), odd))
  {
    hide ByteAt; hide AesCt.AddRoundKey; hide Add;
    forall k: bv8 ensures ByteAt(AesCt.AddRoundKey(q, key), k) == Add(ByteAt(q, k), ByteAt(key, k))
    { AddRoundKeyByte(q, key, k); }
  }

  lemma MixColumnsLane(q: AesCt.Words, odd: bool)
    ensures Lane(Sliced(AesCt.MixColumns(q, AesCt.LWORD)), odd) == MixColumns(Lane(Sliced(q), odd))
  {
    hide ByteAt; hide AesCt.MixColumns; hide MixColumn;
    MixColumnsAt(q, 0); MixColumnsAt(q, 1); MixColumnsAt(q, 2); MixColumnsAt(q, 3);
    MixColumnsAt(q, 4); MixColumnsAt(q, 5); MixColumnsAt(q, 6); MixColumnsAt(q, 7);
  }

  lemma ShiftRowsSlice(q: AesCt.Words)
    ensures var p := AesCt.ShiftRows(q);
     && Slice(p, 0) == Slice(q, 0)
     && (var x := Slice(q, 1); Slice(p, 1) == Oct(x.b2, x.b3, x.b4, x.b5, x.b6, x.b7, x.b0, x.b1))
     && (var x := Slice(q, 2); Slice(p, 2) == Oct(x.b4, x.b5, x.b6, x.b7, x.b0, x.b1, x.b2, x.b3))
     && (var x := Slice(q, 3); Slice(p, 3) == Oct(x.b6, x.b7, x.b0, x.b1, x.b2, x.b3, x.b4, x.b5))
  {
    hide RowByte; hide Slice; hide AesCt.ShiftRow;
    var p := AesCt.ShiftRows(q);
    SliceIsTransposedRow(p, 0); SliceIsTransposedRow(p, 1); SliceIsTransposedRow(p, 2); SliceIsTransposedRow(p, 3);
    SliceIsTransposedRow(q, 0); SliceIsTransposedRow(q, 1); SliceIsTransposedRow(q, 2); SliceIsTransposedRow(q, 3);
    forall w: bv32
      ensures RowByte(AesCt.ShiftRow(w), 0) == RowByte(w, 0)
      ensures var x := RowByte(w, 1);
              RowByte(AesCt.ShiftRow(w), 1) == Oct(x.b2, x.b3, x.b4, x.b5, x.b6, x.b7, x.b0, x.b1)
      ensures var x := RowByte(w, 2);
              RowByte(AesCt.ShiftRow(w), 2) == Oct(x.b4, x.b5, x.b6, x.b7, x.b0, x.b1, x.b2, x.b3)
      ensures var x := RowByte(w, 3);
              RowByte(AesCt.ShiftRow(w), 3) == Oct(x.b6, x.b7, x.b0, x.b1, x.b2, x.b3, x.b4, x.b5)
    {
      ShiftRowLow(w); ShiftRowHigh(w);
    }
  }

  lemma ShiftRowsLane(q: AesCt.Words, odd: bool)
    ensures Lane(Sliced(AesCt.ShiftRows(q)), odd) == ShiftRows(Lane(Sliced(q), odd))
  {
    hide Slice; hide AesCt.ShiftRows;
    ShiftRowsSlice(q);
  }

  /** The round keys of one lane. */
  function LaneKeys(nr: nat, sk: seq<bv32>, odd: bool): seq<State>
    requires 8 * nr + 8 <= |sk|
  {
    seq(nr + 1, u requires 0 <= u <= nr => Lane(Sliced(AesCt.KeyWords(sk, u)), odd))
  }

  lemma {:induction false} RoundsLane(nr: nat, sk: seq<bv32>, q: AesCt.Words, odd: bool, u: nat)
    requires u <= nr && 8 * nr + 8 <= |sk|
    ensures Lane(Sliced(AesCt.EncryptRounds(sk, q, u)), odd)
         == Rounds(LaneKeys(nr, sk, odd), Lane(Sliced(q), odd), u)
  {
    hide Lane; hide Sliced; hide AesCt.AddRoundKey; hide AesCt.MixColumns; hide AesCt.ShiftRows; hide Sbox;
    hide AddRoundKey; hide MixColumns; hide ShiftRows; hide SubBytes; hide AesCt.KeyWords;
    if u == 0 {
      AddRoundKeyLane(q, AesCt.KeyWords(sk, 0), odd);
    } else {
      RoundsLane(nr, sk, q, odd, u - 1);
      var e := AesCt.EncryptRounds(sk, q, u - 1);
      SboxLane(e, odd);
      ShiftRowsLane(Sbox(e, WORD), odd);
      MixColumnsLane(AesCt.ShiftRows(Sbox(e, WORD)), odd);
      AddRoundKeyLane(AesCt.MixColumns(AesCt.ShiftRows(Sbox(e, WORD)), AesCt.LWORD), AesCt.KeyWords(sk, u), odd);
    }
  }

  lemma EncryptLane(nr: nat, sk: seq<bv32>, q: AesCt.Words, odd: bool)
    requires 1 <= nr && 8 * nr + 8 <= |sk|
    ensures Lane(Sliced(AesCt.Encrypt(nr, sk, q)), odd) == Cipher(LaneKeys(nr, sk, odd), Lane(Sliced(q), odd))
  {
    hide Lane; hide Sliced; hide AesCt.AddRoundKey; hide AesCt.ShiftRows; hide Sbox;
    hide AddRoundKey; hide ShiftRows; hide SubBytes; hide AesCt.KeyWords;
    hide Rounds; hide AesCt.EncryptRounds;
    RoundsLane(nr, sk, q, odd, nr - 1);
    var e := AesCt.EncryptRounds(sk, q, nr - 1);
    SboxLane(e, odd);
    ShiftRowsLane(Sbox(e, WORD), odd);
    AddRoundKeyLane(AesCt.ShiftRows(Sbox(e, WORD)), AesCt.KeyWords(sk, nr), odd);
  }

  /** Orthogonalize, encrypt, orthogonalize: each block is enciphered as FIPS 197 says. */
  lemma EncryptPairIsCipher(nr: nat, sk: seq<bv32>, w: AesCt.Words, odd: bool)
    requires 1 <= nr && 8 * nr + 8 <= |sk|
    ensures Lane(Plain(AesCt.Ortho(AesCt.Encrypt(nr, sk, AesCt.Ortho(w)))), odd)
         == Cipher(LaneKeys(nr, sk, odd), Lane(Plain(w), odd))
  {
    hide Lane; hide Sliced; hide Plain; hide AesCt.Ortho; hide AesCt.Encrypt; hide Cipher;
    EncryptLane(nr, sk, AesCt.Ortho(w), odd);
    OrthoSlices(w);
    OrthoSlices(AesCt.Encrypt(nr, sk, AesCt.Ortho(w)));
  }
}
