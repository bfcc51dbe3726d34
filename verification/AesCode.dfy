/** The routines of aes_ct.c, aes_ct_enc.c and aes_ct_dec.c, which overwrite the eight
    words `q` in place, proved against the functions of module AesCt. */
module AesCode {
  import opened Circuits
  import B = AesBits
  import C = AesCt
  import K = AesKey

  /** SWAPN on two words of q. */
  method SwapN(q: array<bv32>, i: nat, j: nat, cl: bv32, ch: bv32, s: bv8)
    requires i < q.Length && j < q.Length && i != j && s <= 32
    modifies q
    ensures q[..] == old(q[..])[i := C.Lo(old(q[i]), old(q[j]), cl, s)][j := C.Hi(old(q[i]), old(q[j]), ch, s)]
  {
    hide C.Lo; hide C.Hi;
    var a, b := q[i], q[j];
    q[i] := C.Lo(a, b, cl, s);
    q[j] := C.Hi(a, b, ch, s);
  }

  method SwapStage2(q: array<bv32>, off: nat)
    requires off + 8 <= q.Length
    modifies q
    ensures C.WordsAt(q[..], off) == C.Swap2(old(C.WordsAt(q[..], off)))
    ensures q[..off] == old(q[..off]) && q[off + 8..] == old(q[off + 8..])
  {
    hide C.Lo; hide C.Hi;
    SwapN(q, off, off + 1, 0x5555_5555, 0xAAAA_AAAA, 1);
    SwapN(q, off + 2, off + 3, 0x5555_5555, 0xAAAA_AAAA, 1);
    SwapN(q, off + 4, off + 5, 0x5555_5555, 0xAAAA_AAAA, 1);
    SwapN(q, off + 6, off + 7, 0x5555_5555, 0xAAAA_AAAA, 1);
  }

  method SwapStage4(q: array<bv32>, off: nat)
    requires off + 8 <= q.Length
    modifies q
    ensures C.WordsAt(q[..], off) == C.Swap4(old(C.WordsAt(q[..], off)))
    ensures q[..off] == old(q[..off]) && q[off + 8..] == old(q[off + 8..])
  {
    hide C.Lo; hide C.Hi;
    SwapN(q, off, off + 2, 0x3333_3333, 0xCCCC_CCCC, 2);
    SwapN(q, off + 1, off + 3, 0x3333_3333, 0xCCCC_CCCC, 2);
    SwapN(q, off + 4, off + 6, 0x3333_3333, 0xCCCC_CCCC, 2);
    SwapN(q, off + 5, off + 7, 0x3333_3333, 0xCCCC_CCCC, 2);
  }

  method SwapStage8(q: array<bv32>, off: nat)
    requires off + 8 <= q.Length
    modifies q
    ensures C.WordsAt(q[..], off) == C.Swap8(old(C.WordsAt(q[..], off)))
    ensures q[..off] == old(q[..off]) && q[off + 8..] == old(q[off + 8..])
  {
    hide C.Lo; hide C.Hi;
    SwapN(q, off, off + 4, 0x0F0F_0F0F, 0xF0F0_F0F0, 4);
    SwapN(q, off + 1, off + 5, 0x0F0F_0F0F, 0xF0F0_F0F0, 4);
    SwapN(q, off + 2, off + 6, 0x0F0F_0F0F, 0xF0F0_F0F0, 4);
    SwapN(q, off + 3, off + 7, 0x0F0F_0F0F, 0xF0F0_F0F0, 4);
  }

  /** br_aes_ct_ortho, on the eight words at q + off. */
  method Ortho(q: array<bv32>, off: nat)
    requires off + 8 <= q.Length
    modifies q
    ensures C.WordsAt(q[..], off) == C.Ortho(old(C.WordsAt(q[..], off)))
    ensures q[..off] == old(q[..off]) && q[off + 8..] == old(q[off + 8..])
  {
    hide C.Swap2; hide C.Swap4; hide C.Swap8;
    SwapStage2(q, off);
    SwapStage4(q, off);
    SwapStage8(q, off);
  }

  method Store(q: array<bv32>, s: C.Words)
    requires q.Length == 8
    modifies q
    ensures C.WordsAt(q[..], 0) == s
  {
    q[0], q[1], q[2], q[3] := s.b0, s.b1, s.b2, s.b3;
    q[4], q[5], q[6], q[7] := s.b4, s.b5, s.b6, s.b7;
  }

  /** Byte k of the words that q holds. */
  ghost function ByteOf(q: array<bv32>, k: bv8): Byte
    requires q.Length == 8
    reads q
  {
    B.ByteAt(C.WordsAt(q[..], 0), k)
  }

  /** The gates of br_aes_ct_bitslice_Sbox, one after another, with the operations on words given. */
  method Gates(x0: bv32, x1: bv32, x2: bv32, x3: bv32, x4: bv32, x5: bv32, x6: bv32, x7: bv32, o: Ops<bv32>)
    returns (s0: bv32, s1: bv32, s2: bv32, s3: bv32, s4: bv32, s5: bv32, s6: bv32, s7: bv32)
    ensures Oct(s7, s6, s5, s4, s3, s2, s1, s0) == Sbox(Oct(x7, x6, x5, x4, x3, x2, x1, x0), o)
  {
    // top linear transformation, shared non-linear section, bottom linear transformation
    var y14, y13, y9 := o.xor(x3, x5), o.xor(x0, x6), o.xor(x0, x3);
    var y8, t0 := o.xor(x0, x5), o.xor(x1, x2);
    var y1 := o.xor(t0, x7);
    var y4, y12, y2, y5 := o.xor(y1, x3), o.xor(y13, y14), o.xor(y1, x0), o.xor(y1, x6);
    var y3, t1 := o.xor(y5, y8), o.xor(x4, y12);
    var y15, y20 := o.xor(t1, x5), o.xor(t1, x1);
    var y6, y10, y11 := o.xor(y15, x7), o.xor(y15, t0), o.xor(y20, y9);
    var y7, y17, y19, y16 := o.xor(x7, y11), o.xor(y10, y11), o.xor(y10, y8), o.xor(t0, y11);
    var y21, y18, t2, t3 := o.xor(y13, y16), o.xor(x0, y16), o.and(y12, y15), o.and(y3, y6);
    var t4, t5 := o.xor(t3, t2), o.and(y4, x7);
    var t6, t7, t8 := o.xor(t5, t2), o.and(y13, y16), o.and(y5, y1);
    var t9, t10 := o.xor(t8, t7), o.and(y2, y7);
    var t11, t12, t13 := o.xor(t10, t7), o.and(y9, y11), o.and(y14, y17);
    var t14, t15 := o.xor(t13, t12), o.and(y8, y10);
    var t16, t17 := o.xor(t15, t12), o.xor(t4, t14);
    var t18, t19, t20, t21 := o.xor(t6, t16), o.xor(t9, t14), o.xor(t11, t16), o.xor(t17, y20);
    var t22, t23, t24 := o.xor(t18, y19), o.xor(t19, y21), o.xor(t20, y18);
    var t25, t26 := o.xor(t21, t22), o.and(t21, t23);
    var t27 := o.xor(t24, t26);
    var t28 := o.and(t25, t27);
    var t29, t30, t31 := o.xor(t28, t22), o.xor(t23, t24), o.xor(t22, t26);
    var t32 := o.and(t31, t30);
    var t33 := o.xor(t32, t24);
    var t34, t35 := o.xor(t23, t33), o.xor(t27, t33);
    var t36 := o.and(t24, t35);
    var t37, t38 := o.xor(t36, t34), o.xor(t27, t36);
    var t39 := o.and(t29, t38);
    var t40 := o.xor(t25, t39);
    var t41, t42, t43, t44 := o.xor(t40, t37), o.xor(t29, t33), o.xor(t29, t40), o.xor(t33, t37);
    var t45, z0, z1 := o.xor(t42, t41), o.and(t44, y15), o.and(t37, y6);
    var z2, z3 := o.and(t33, x7), o.and(t43, y16);
    var z4, z5, z6 := o.and(t40, y1), o.and(t29, y7), o.and(t42, y11);
    var z7, z8 := o.and(t45, y17), o.and(t41, y10);
    var z9, z10, z11 := o.and(t44, y12), o.and(t37, y3), o.and(t33, y4);
    var z12, z13 := o.and(t43, y13), o.and(t40, y5);
    var z14, z15, z16, z17 := o.and(t29, y2), o.and(t42, y9), o.and(t45, y14), o.and(t41, y8);
    var t46, t47, t48 := o.xor(z15, z16), o.xor(z10, z11), o.xor(z5, z13);
    var t49, t50 := o.xor(z9, z10), o.xor(z2, z12);
    var t51, t52, t53 := o.xor(z2, z5), o.xor(z7, z8), o.xor(z0, z3);
    var t54, t55 := o.xor(z6, z7), o.xor(z16, z17);
    var t56, t57, t58, t59 := o.xor(z12, t48), o.xor(t50, t53), o.xor(z4, t46), o.xor(z3, t54);
    var t60, t61, t62 := o.xor(t46, t57), o.xor(z14, t57), o.xor(t52, t58);
    var t63, t64 := o.xor(t49, t58), o.xor(z4, t59);
    var t65, t66 := o.xor(t61, t62), o.xor(z1, t63);
    s0, s6, s7 := o.xor(t59, t63), o.xor(t56, o.not(t62)), o.xor(t48, o.not(t60));
    var t67 := o.xor(t64, t65);
    s3, s4, s5 := o.xor(t53, t66), o.xor(t51, t66), o.xor(t47, t65);
    s1, s2 := o.xor(t64, o.not(s3)), o.xor(t55, o.not(t67));
  }

  /** br_aes_ct_bitslice_Sbox: each of the 32 bytes becomes the affine map of its inverse, as section 5.1.1 of FIPS 197
      has it. */
  method SboxInPlace(q: array<bv32>)
    requires q.Length == 8
    modifies q
    ensures forall k: bv8 :: IsSubByte(old(ByteOf(q, k)), ByteOf(q, k))
    ensures C.WordsAt(q[..], 0) == Sbox(old(C.WordsAt(q[..], 0)), WORD)
  {
    hide Sbox; hide IsSubByte; hide B.ByteAt; hide SubByte; hide InvSbox; hide InvSubByte;
    ghost var s := C.WordsAt(q[..], 0);
    q[7], q[6], q[5], q[4], q[3], q[2], q[1], q[0] :=
      Gates(q[7], q[6], q[5], q[4], q[3], q[2], q[1], q[0], WORD);
    forall k: bv8 ensures IsSubByte(B.ByteAt(s, k), ByteOf(q, k)) {
      B.SboxByte(s, k);
      SubByteIsAffineOfInverse(B.ByteAt(s, k));
    }
  }

  /** br_aes_ct_bitslice_invSbox: each of the 32 bytes becomes the one whose S-box value it is. */
  method InvSboxInPlace(q: array<bv32>)
    requires q.Length == 8
    modifies q
    ensures forall k: bv8 :: IsSubByte(ByteOf(q, k), old(ByteOf(q, k)))
    ensures C.WordsAt(q[..], 0) == InvSbox(old(C.WordsAt(q[..], 0)), WORD)
  {
    hide Sbox; hide Unaffine; hide IsSubByte; hide B.ByteAt; hide SubByte; hide InvSubByte;
    ghost var s := C.WordsAt(q[..], 0);
    Store(q, Unaffine(C.WordsAt(q[..], 0), WORD));
    SboxInPlace(q);
    Store(q, Unaffine(C.WordsAt(q[..], 0), WORD));
    forall k: bv8 ensures IsSubByte(ByteOf(q, k), B.ByteAt(s, k)) {
      B.SboxByte(s, k);
      SubByteIsAffineOfInverse(ByteOf(q, k));
      SubByteUndoesInvSubByte(B.ByteAt(s, k));
    }
  }

  method AddRoundKey(q: array<bv32>, sk: array<bv32>, u: nat)
    requires q.Length == 8 && q != sk && 8 * u + 8 <= sk.Length
    modifies q
    ensures C.WordsAt(q[..], 0) == C.AddRoundKey(old(C.WordsAt(q[..], 0)), C.KeyWords(sk[..], u))
  {
    var i := 0;
    while i < 8
      invariant 0 <= i <= 8
      invariant forall j | 0 <= j < i :: q[j] == WORD.xor(old(q[j]), sk[8 * u + j])
      invariant forall j | i <= j < 8 :: q[j] == old(q[j])
    {
      q[i] := WORD.xor(q[i], sk[8 * u + i]);
      i := i + 1;
    }
  }

  method ShiftRows(q: array<bv32>)
    requires q.Length == 8
    modifies q
    ensures C.WordsAt(q[..], 0) == C.ShiftRows(old(C.WordsAt(q[..], 0)))
  {
    hide C.ShiftRow;
    var i := 0;
    while i < 8
      invariant 0 <= i <= 8
      invariant forall j | 0 <= j < i :: q[j] == C.ShiftRow(old(q[j]))
      invariant forall j | i <= j < 8 :: q[j] == old(q[j])
    {
      q[i] := C.ShiftRow(q[i]);
      i := i + 1;
    }
  }

  method InvShiftRows(q: array<bv32>)
    requires q.Length == 8
    modifies q
    ensures C.WordsAt(q[..], 0) == C.InvShiftRows(old(C.WordsAt(q[..], 0)))
  {
    hide C.InvShiftRow;
    var i := 0;
    while i < 8
      invariant 0 <= i <= 8
      invariant forall j | 0 <= j < i :: q[j] == C.InvShiftRow(old(q[j]))
      invariant forall j | i <= j < 8 :: q[j] == old(q[j])
    {
      q[i] := C.InvShiftRow(q[i]);
      i := i + 1;
    }
  }

  /** br_aes_ct_bitslice_encrypt. */
  method BitsliceEncrypt(nr: nat, sk: array<bv32>, q: array<bv32>)
    requires q.Length == 8 && q != sk && 1 <= nr && 8 * nr + 8 <= sk.Length
    modifies q
    ensures C.WordsAt(q[..], 0) == C.Encrypt(nr, sk[..], old(C.WordsAt(q[..], 0)))
  {
    hide Sbox; hide C.ShiftRows; hide C.MixColumns; hide C.AddRoundKey; hide C.WordsAt;
    ghost var q0 := C.WordsAt(q[..], 0);
    AddRoundKey(q, sk, 0);
    var u := 1;
    while u < nr
      invariant 1 <= u <= nr
      invariant C.WordsAt(q[..], 0) == C.EncryptRounds(sk[..], q0, u - 1)
    {
      SboxInPlace(q);
      ShiftRows(q);
      Store(q, C.MixColumns(C.WordsAt(q[..], 0), C.LWORD));
      AddRoundKey(q, sk, u);
      u := u + 1;
    }
    SboxInPlace(q);
    ShiftRows(q);
    AddRoundKey(q, sk, nr);
  }

  /** br_aes_ct_bitslice_decrypt. */
  method BitsliceDecrypt(nr: nat, sk: array<bv32>, q: array<bv32>)
    requires q.Length == 8 && q != sk && 1 <= nr && 8 * nr + 8 <= sk.Length
    modifies q
    ensures C.WordsAt(q[..], 0) == C.Decrypt(nr, sk[..], old(C.WordsAt(q[..], 0)))
  {
    hide InvSbox; hide C.InvShiftRows; hide C.InvMixColumns; hide C.AddRoundKey; hide C.WordsAt;
    ghost var q0 := C.WordsAt(q[..], 0);
    AddRoundKey(q, sk, nr);
    var u := nr - 1;
    while u > 0
      invariant 0 <= u < nr
      invariant C.WordsAt(q[..], 0) == C.DecryptRounds(nr, sk[..], q0, u)
    {
      InvShiftRows(q);
      InvSboxInPlace(q);
      AddRoundKey(q, sk, u);
      Store(q, C.InvMixColumns(C.WordsAt(q[..], 0), C.LWORD));
      u := u - 1;
    }
    InvShiftRows(q);
    InvSboxInPlace(q);
    AddRoundKey(q, sk, 0);
  }

  // ---------------------------------------------------------------------------
  // Key schedule

  /** The first loop of br_aes_ct_keysched: the words of the key itself, each twice. */
  method CopyKey(skey: array<bv32>, key: seq<bv32>)
    requires K.KeyLength(|key|) && 2 * K.ScheduleSize(|key|) <= skey.Length
    modifies skey
    ensures Doubled(skey[..], key, |key|)
  {
    hide K.SchedWord;
    var i := 0;
    while i < |key|
      invariant 0 <= i <= |key|
      invariant Doubled(skey[..], key, i)
    {
      K.FirstWords(key, i);
      skey[2 * i] := key[i];
      skey[2 * i + 1] := key[i];
      i := i + 1;
    }
  }

  /** The second loop of br_aes_ct_keysched: the remaining words, each twice. */
  lemma DoubledAt(s: seq<bv32>, key: seq<bv32>, n: nat, m: nat)
    requires K.KeyLength(|key|) && m < n <= K.ScheduleSize(|key|) && 2 * n <= |s| && Doubled(s, key, n)
    ensures s[2 * m] == K.SchedWord(key, m)
  {
    hide K.SchedWord;
  }

  /** Word i of the schedule, twice. */
  method PutTwice(skey: array<bv32>, ghost key: seq<bv32>, i: nat, w: bv32)
    requires K.KeyLength(|key|) && i < K.ScheduleSize(|key|) && 2 * i + 2 <= skey.Length
    requires Doubled(skey[..], key, i) && w == K.SchedWord(key, i)
    modifies skey
    ensures Doubled(skey[..], key, i + 1)
  {
    hide K.SchedWord;
    skey[2 * i] := w;
    skey[2 * i + 1] := w;
  }

  method FillSchedule(skey: array<bv32>, key: seq<bv32>)
    requires K.KeyLength(|key|) && 2 * K.ScheduleSize(|key|) <= skey.Length
    requires Doubled(skey[..], key, |key|)
    modifies skey
    ensures Doubled(skey[..], key, K.ScheduleSize(|key|))
  {
    hide K.SchedWord; hide K.TempAt; hide K.Counts; hide Doubled;
    var nk, nkf := |key|, K.ScheduleSize(|key|);
    var i, j, k := nk, 0, 0;
    DoubledAt(skey[..], key, nk, nk - 1);
    var tmp := skey[2 * (nk - 1)];
    K.CountsStart(nk);
    while i < nkf
      invariant nk <= i <= nkf && 0 <= j && 0 <= k && K.Counts(nk, i, j, k)
      invariant tmp == K.SchedWord(key, i - 1)
      invariant Doubled(skey[..], key, i)
    {
      K.NextWord(key, i, j, k);
      K.CountsNext(nk, i, j, k);
      DoubledAt(skey[..], key, i, i - nk);
      tmp := skey[2 * (i - nk)] ^ K.TempAt(tmp, nk, j, k);
      PutTwice(skey, key, i, tmp);
      j := j + 1;
      if j == nk {
        j := 0;
        k := k + 1;
      }
      i := i + 1;
    }
  }

  /** The first n words of the schedule stand in skey, each twice. */
  ghost predicate Doubled(skey: seq<bv32>, key: seq<bv32>, n: nat)
    requires K.KeyLength(|key|) && n <= K.ScheduleSize(|key|) && 2 * n <= |skey|
  {
    forall m | 0 <= m < n :: skey[2 * m] == K.SchedWord(key, m) && skey[2 * m + 1] == K.SchedWord(key, m)
  }

  ghost function KeyPair(key: seq<bv32>, u: nat): C.Words
    requires K.KeyLength(|key|) && u <= |key| + 6
  {
    K.Twice(K.SchedWord(key, 4 * u), K.SchedWord(key, 4 * u + 1),
            K.SchedWord(key, 4 * u + 2), K.SchedWord(key, 4 * u + 3))
  }

  lemma SameWordsAt(s: seq<bv32>, t: seq<bv32>, n: nat, off: nat)
    requires n <= |s| && n <= |t| && s[..n] == t[..n] && off + 8 <= n
    ensures C.WordsAt(s, off) == C.WordsAt(t, off)
  {
    assert forall i | off <= i < off + 8 :: s[i] == s[..n][i] && t[i] == t[..n][i];
  }

  /** The third loop of br_aes_ct_keysched. */
  method OrthoSchedule(skey: array<bv32>, key: seq<bv32>)
    requires K.KeyLength(|key|) && 2 * K.ScheduleSize(|key|) <= skey.Length
    requires Doubled(skey[..], key, K.ScheduleSize(|key|))
    modifies skey
    ensures forall u | 0 <= u <= |key| + 6 :: C.WordsAt(skey[..], 8 * u) == K.RoundWords(key, u)
  {
    hide C.Ortho; hide K.SchedWord;
    var v := 0;
    while v < |key| + 7
      invariant 0 <= v <= |key| + 7
      invariant forall u | 0 <= u < v :: C.WordsAt(skey[..], 8 * u) == K.RoundWords(key, u)
      invariant skey[8 * v..] == old(skey[8 * v..])
    {
      ghost var before := skey[..];
      assert before[8 * v..] == old(skey[..])[8 * v..];
      assert C.WordsAt(before, 8 * v) == KeyPair(key, v);
      Ortho(skey, 8 * v);
      forall u | 0 <= u < v ensures C.WordsAt(skey[..], 8 * u) == C.WordsAt(before, 8 * u) {
        SameWordsAt(skey[..], before, 8 * v, 8 * u);
      }
      assert skey[8 * (v + 1)..] == before[8 * v + 8..];
      v := v + 1;
    }
  }

  /** Its last loop: two words into one. */
  method CompressAll(comp: array<bv32>, skey: array<bv32>, nkf: nat)
    requires comp != skey && nkf <= comp.Length && 2 * nkf <= skey.Length
    modifies comp
    ensures forall m | 0 <= m < nkf :: comp[m] == K.Compress(skey[2 * m], skey[2 * m + 1])
  {
    hide K.Compress;
    for i := 0 to nkf
      invariant forall m | 0 <= m < i :: comp[m] == K.Compress(skey[2 * m], skey[2 * m + 1])
    {
      comp[i] := K.Compress(skey[2 * i], skey[2 * i + 1]);
    }
  }

  /** What that makes of the eight words of one round. */
  lemma CompressedRound(comp: seq<bv32>, full: seq<bv32>, nkf: nat, u: nat)
    requires nkf <= |comp| && 2 * nkf <= |full| && 4 * u + 4 <= nkf
    requires forall m | 0 <= m < nkf :: comp[m] == K.Compress(full[2 * m], full[2 * m + 1])
    ensures K.Holds(comp, u, C.WordsAt(full, 8 * u))
  {
    hide K.Compress;
    assert comp[4 * u] == K.Compress(full[2 * (4 * u)], full[2 * (4 * u) + 1]);
    assert comp[4 * u + 1] == K.Compress(full[2 * (4 * u + 1)], full[2 * (4 * u + 1) + 1]);
    assert comp[4 * u + 2] == K.Compress(full[2 * (4 * u + 2)], full[2 * (4 * u + 2) + 1]);
    assert comp[4 * u + 3] == K.Compress(full[2 * (4 * u + 3)], full[2 * (4 * u + 3) + 1]);
  }

  /** br_aes_ct_keysched. */
  method KeySched(comp: array<bv32>, key: seq<bv8>) returns (nr: nat)
    requires 60 <= comp.Length
    modifies comp
    ensures |key| != 16 && |key| != 24 && |key| != 32 ==> nr == 0 && comp[..] == old(comp[..])
    ensures |key| == 16 || |key| == 24 || |key| == 32 ==>
              && nr == |key| / 4 + 6
              && forall u | 0 <= u <= nr :: K.Holds(comp[..], u, K.RoundWords(K.KeyOf(key), u))
  {
    hide C.Ortho; hide K.SchedWord; hide K.Compress; hide K.Le32; hide K.Holds; hide C.WordsAt; hide K.RoundWords;
    if |key| != 16 && |key| != 24 && |key| != 32 {
      return 0;
    }
    var words := K.KeyOf(key);
    nr := |words| + 6;
    var nkf := K.ScheduleSize(|words|);
    var skey := new bv32[120];
    CopyKey(skey, words);
    FillSchedule(skey, words);
    OrthoSchedule(skey, words);
    ghost var full := skey[..];
    CompressAll(comp, skey, nkf);
    forall u | 0 <= u <= nr ensures K.Holds(comp[..], u, K.RoundWords(words, u)) {
      CompressedRound(comp[..], full, nkf, u);
    }
  }

  /** br_aes_ct_skey_expand. */
  method SkeyExpand(skey: array<bv32>, nr: nat, comp: seq<bv32>)
    requires 4 * (nr + 1) <= |comp| && 8 * (nr + 1) <= skey.Length
    modifies skey
    ensures forall u | 0 <= u <= nr :: C.KeyWords(skey[..], u) == K.ExpandRound(comp, u)
  {
    hide K.ExpandEven; hide K.ExpandOdd;
    var n := 4 * (nr + 1);
    var i := 0;
    while i < n
      invariant 0 <= i <= n
      invariant forall m | 0 <= m < i :: skey[2 * m] == K.ExpandEven(comp[m]) && skey[2 * m + 1] == K.ExpandOdd(comp[m])
    {
      skey[2 * i] := K.ExpandEven(comp[i]);
      skey[2 * i + 1] := K.ExpandOdd(comp[i]);
      i := i + 1;
    }
    forall u | 0 <= u <= nr ensures C.KeyWords(skey[..], u) == K.ExpandRound(comp, u) {
      assert skey[2 * (4 * u)] == K.ExpandEven(comp[4 * u]);
      assert skey[2 * (4 * u + 1)] == K.ExpandEven(comp[4 * u + 1]);
      assert skey[2 * (4 * u + 2)] == K.ExpandEven(comp[4 * u + 2]);
      assert skey[2 * (4 * u + 3)] == K.ExpandEven(comp[4 * u + 3]);
    }
  }
}
