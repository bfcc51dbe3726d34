/**
 * The bitsliced AES, one bit position at a time. Bit k of the eight state words together is one byte of the AES state
 * (ByteAt), and on that byte each word-level step of AesCt is the step of FIPS 197 (Aes): the S-box circuit is
 * SubBytes, the rotations are ShiftRows, the linear layer is MixColumns. The circuits and the linear layer are
 * natural in the type of their wires, so that a fact about single bits carries over to words.
 */
module AesBits {
  import opened Circuits
  import opened Aes
  import opened AesCt

  // ---------------------------------------------------------------------------
  // Bits of a word

  function Bit(w: bv32, k: bv8): bool { (w >> (k & 31)) & 1 == 1 }

  lemma BitXor(a: bv32, b: bv32, k: bv8)
    ensures Bit(a ^ b, k) == (Bit(a, k) != Bit(b, k))
  {}

  lemma BitAnd(a: bv32, b: bv32, k: bv8)
    ensures Bit(a & b, k) == (Bit(a, k) && Bit(b, k))
  {}

  lemma BitNot(a: bv32, k: bv8)
    ensures Bit(!a, k) == !Bit(a, k)
  {}

  lemma WordXor(a: bv32, b: bv32) ensures WORD.xor(a, b) == a ^ b {}

  lemma WordAnd(a: bv32, b: bv32) ensures WORD.and(a, b) == a & b {}

  lemma WordNot(a: bv32) ensures WORD.not(a) == !a {}

  lemma BitKeepsXor(h: bv32 -> bool, k: bv8, a: bv32, b: bv32)
    requires forall w :: h(w) == Bit(w, k)
    ensures h(WORD.xor(a, b)) == BOOL.xor(h(a), h(b))
  {
    hide *;
    WordXor(a, b); BitXor(a, b, k); BoolOps(h(a), h(b));
  }

  lemma BitKeepsAnd(h: bv32 -> bool, k: bv8, a: bv32, b: bv32)
    requires forall w :: h(w) == Bit(w, k)
    ensures h(WORD.and(a, b)) == BOOL.and(h(a), h(b))
  {
    hide *;
    WordAnd(a, b); BitAnd(a, b, k); BoolOps(h(a), h(b));
  }

  lemma BitKeepsNot(h: bv32 -> bool, k: bv8, a: bv32)
    requires forall w :: h(w) == Bit(w, k)
    ensures h(WORD.not(a)) == BOOL.not(h(a))
  {
    hide *;
    WordNot(a); BitNot(a, k); BoolOps(h(a), h(a));
  }

  /** Picking bit k commutes with the operations on words. */
  lemma BitHom(h: bv32 -> bool, k: bv8)
    requires forall w :: h(w) == Bit(w, k)
    ensures Hom(h, WORD, BOOL)
  {
    hide Bit;
    forall a, b ensures h(WORD.xor(a, b)) == BOOL.xor(h(a), h(b)) { BitKeepsXor(h, k, a, b); }
    forall a, b ensures h(WORD.and(a, b)) == BOOL.and(h(a), h(b)) { BitKeepsAnd(h, k, a, b); }
    forall a ensures h(WORD.not(a)) == BOOL.not(h(a)) { BitKeepsNot(h, k, a); }
  }

  /** The byte whose bits stand at position k of the eight words. */
  function ByteAt(q: Words, k: bv8): Byte { Map(q, w => Bit(w, k)) }

  /** The S-box circuit on words is the S-box on each byte. */
  lemma SboxByte(q: Words, k: bv8)
    ensures ByteAt(Sbox(q, WORD), k) == SubByte(ByteAt(q, k))
    ensures ByteAt(InvSbox(q, WORD), k) == InvSubByte(ByteAt(q, k))
  {
    hide Bit; hide Sbox; hide InvSbox; hide Map;
    var h := (w: bv32) => Bit(w, k);
    BitHom(h, k);
    SboxNatural(q, h, WORD, BOOL);
    InvSboxNatural(q, h, WORD, BOOL);
  }

  /** Byte r of a word. */
  function RowByte(w: bv32, r: bv8): Byte {
    var k := 8 * r;
    Oct(Bit(w, k), Bit(w, k + 1), Bit(w, k + 2), Bit(w, k + 3),
        Bit(w, k + 4), Bit(w, k + 5), Bit(w, k + 6), Bit(w, k + 7))
  }

  // ---------------------------------------------------------------------------
  // br_aes_ct_ortho transposes

  lemma SameBytes(a: bv32, b: bv32)
    requires RowByte(a, 0) == RowByte(b, 0) && RowByte(a, 1) == RowByte(b, 1)
    requires RowByte(a, 2) == RowByte(b, 2) && RowByte(a, 3) == RowByte(b, 3)
    ensures a == b
  {}

  lemma SwapRow1(a: bv32, b: bv32, r: bv8)
    requires r < 4
    ensures var (x, y) := (RowByte(a, r), RowByte(b, r));
      && RowByte(Lo(a, b, 0x5555_5555, 1), r) == Oct(x.b0, y.b0, x.b2, y.b2, x.b4, y.b4, x.b6, y.b6)
      && RowByte(Hi(a, b, 0xAAAA_AAAA, 1), r) == Oct(x.b1, y.b1, x.b3, y.b3, x.b5, y.b5, x.b7, y.b7)
  {}

  lemma SwapRow2(a: bv32, b: bv32, r: bv8)
    requires r < 4
    ensures var (x, y) := (RowByte(a, r), RowByte(b, r));
      && RowByte(Lo(a, b, 0x3333_3333, 2), r) == Oct(x.b0, x.b1, y.b0, y.b1, x.b4, x.b5, y.b4, y.b5)
      && RowByte(Hi(a, b, 0xCCCC_CCCC, 2), r) == Oct(x.b2, x.b3, y.b2, y.b3, x.b6, x.b7, y.b6, y.b7)
  {}

  lemma SwapRow4(a: bv32, b: bv32, r: bv8)
    requires r < 4
    ensures var (x, y) := (RowByte(a, r), RowByte(b, r));
      && RowByte(Lo(a, b, 0x0F0F_0F0F, 4), r) == Oct(x.b0, x.b1, x.b2, x.b3, y.b0, y.b1, y.b2, y.b3)
      && RowByte(Hi(a, b, 0xF0F0_F0F0, 4), r) == Oct(x.b4, x.b5, x.b6, x.b7, y.b4, y.b5, y.b6, y.b7)
  {}

  lemma RowXor0(a: bv32, b: bv32)
    ensures RowByte(a ^ b, 0) == Add(RowByte(a, 0), RowByte(b, 0))
  {
    hide Bit;
    BitXor(a, b, 0); BitXor(a, b, 1); BitXor(a, b, 2); BitXor(a, b, 3);
    BitXor(a, b, 4); BitXor(a, b, 5); BitXor(a, b, 6); BitXor(a, b, 7);
  }

  lemma RowXor1(a: bv32, b: bv32)
    ensures RowByte(a ^ b, 1) == Add(RowByte(a, 1), RowByte(b, 1))
  {
    hide Bit;
    BitXor(a, b, 8); BitXor(a, b, 9); BitXor(a, b, 10); BitXor(a, b, 11);
    BitXor(a, b, 12); BitXor(a, b, 13); BitXor(a, b, 14); BitXor(a, b, 15);
  }

  lemma RowXor2(a: bv32, b: bv32)
    ensures RowByte(a ^ b, 2) == Add(RowByte(a, 2), RowByte(b, 2))
  {
    hide Bit;
    BitXor(a, b, 16); BitXor(a, b, 17); BitXor(a, b, 18); BitXor(a, b, 19);
    BitXor(a, b, 20); BitXor(a, b, 21); BitXor(a, b, 22); BitXor(a, b, 23);
  }

  lemma RowXor3(a: bv32, b: bv32)
    ensures RowByte(a ^ b, 3) == Add(RowByte(a, 3), RowByte(b, 3))
  {
    hide Bit;
    BitXor(a, b, 24); BitXor(a, b, 25); BitXor(a, b, 26); BitXor(a, b, 27);
    BitXor(a, b, 28); BitXor(a, b, 29); BitXor(a, b, 30); BitXor(a, b, 31);
  }

  lemma RowXor(a: bv32, b: bv32, r: bv8)
    requires r < 4
    ensures RowByte(a ^ b, r) == Add(RowByte(a, r), RowByte(b, r))
  {
    hide RowByte; hide Add;
    RowXor0(a, b); RowXor1(a, b); RowXor2(a, b); RowXor3(a, b);
  }

  function Transpose<T>(m: Oct<Oct<T>>): Oct<Oct<T>> {
    Oct(Map(m, (x: Oct<T>) => x.b0), Map(m, (x: Oct<T>) => x.b1),
        Map(m, (x: Oct<T>) => x.b2), Map(m, (x: Oct<T>) => x.b3),
        Map(m, (x: Oct<T>) => x.b4), Map(m, (x: Oct<T>) => x.b5),
        Map(m, (x: Oct<T>) => x.b6), Map(m, (x: Oct<T>) => x.b7))
  }

  /** Byte r of each of the eight words. */
  function Row(q: Words, r: bv8): Oct<Byte> { Map(q, w => RowByte(w, r)) }

  /** Orthogonalization transposes each of the four 8 by 8 bit matrices. */
  lemma OrthoTransposes(q: Words, r: bv8)
    requires r < 4
    ensures Row(Ortho(q), r) == Transpose(Row(q, r))
  {
    hide RowByte; hide Lo; hide Hi;
    SwapRow1(q.b0, q.b1, r); SwapRow1(q.b2, q.b3, r); SwapRow1(q.b4, q.b5, r); SwapRow1(q.b6, q.b7, r);
    var a := Swap2(q);
    SwapRow2(a.b0, a.b2, r); SwapRow2(a.b1, a.b3, r); SwapRow2(a.b4, a.b6, r); SwapRow2(a.b5, a.b7, r);
    var b := Swap4(a);
    SwapRow4(b.b0, b.b4, r); SwapRow4(b.b1, b.b5, r); SwapRow4(b.b2, b.b6, r); SwapRow4(b.b3, b.b7, r);
  }

  lemma OrthoInvolution(q: Words)
    ensures Ortho(Ortho(q)) == q
  {
    hide RowByte; hide Ortho;
    var p := Ortho(Ortho(q));
    forall r: bv8 | r < 4 ensures Row(p, r) == Row(q, r) {
      OrthoTransposes(q, r);
      OrthoTransposes(Ortho(q), r);
    }
    SameRows(p, q);
  }
  // ---------------------------------------------------------------------------
  // ShiftRows: each row turns by its number

  lemma ShiftRowLow(w: bv32)
    ensures RowByte(ShiftRow(w), 0) == RowByte(w, 0)
    ensures var x := RowByte(w, 1); RowByte(ShiftRow(w), 1) == Oct(x.b2, x.b3, x.b4, x.b5, x.b6, x.b7, x.b0, x.b1)
  {}

  lemma ShiftRowHigh(w: bv32)
    ensures var x := RowByte(w, 2); RowByte(ShiftRow(w), 2) == Oct(x.b4, x.b5, x.b6, x.b7, x.b0, x.b1, x.b2, x.b3)
    ensures var x := RowByte(w, 3); RowByte(ShiftRow(w), 3) == Oct(x.b6, x.b7, x.b0, x.b1, x.b2, x.b3, x.b4, x.b5)
  {}

  lemma InvShiftRowUndoes(w: bv32)
    ensures InvShiftRow(ShiftRow(w)) == w
  {}

  // ---------------------------------------------------------------------------
  // MixColumns. It is linear: checked on the 32 basis vectors, all at once in the bits of a word, it holds everywhere.

  function Left<T>(c: Col<T>): Col<T> { Col(c.r1, c.r2, c.r3, c.r0) }
  function Left2<T>(c: Col<T>): Col<T> { Col(c.r2, c.r3, c.r0, c.r1) }

  function ColLin<T>(xor: (T, T) -> T): Lin<Col<T>> {
    Lin((a: Col<T>, b: Col<T>) => Col(xor(a.r0, b.r0), xor(a.r1, b.r1), xor(a.r2, b.r2), xor(a.r3, b.r3)), Left, Left2)
  }

  const XOR: (bv32, bv32) -> bv32 := (a, b) => a ^ b
  const FORM: Lin<Col<bv32>> := ColLin(XOR)
  const LBOOL: Lin<Col<bool>> := ColLin(BOOL.xor)

  /** Column m of one word. */
  function ColumnBits(w: bv32, m: bv8): Col<bool> { Col(Bit(w, m), Bit(w, m + 8), Bit(w, m + 16), Bit(w, m + 24)) }

  lemma ColumnBitsXor(a: bv32, b: bv32, m: bv8)
    ensures var (x, y) := (ColumnBits(a, m), ColumnBits(b, m));
       ColumnBits(a ^ b, m) == Col(x.r0 != y.r0, x.r1 != y.r1, x.r2 != y.r2, x.r3 != y.r3)
  {
    hide Bit;
    BitXor(a, b, m); BitXor(a, b, m + 8); BitXor(a, b, m + 16); BitXor(a, b, m + 24);
  }

  lemma ColumnBitsRor(w: bv32, m: bv8)
    ensures ColumnBits(Ror8(w), m) == Left(ColumnBits(w, m))
    ensures ColumnBits(Ror16(w), m) == Left2(ColumnBits(w, m))
  {}

  lemma LWordXor(a: bv32, b: bv32) ensures LWORD.xor(a, b) == a ^ b {}

  lemma LBoolXor(x: Col<bool>, y: Col<bool>)
    ensures LBOOL.xor(x, y) == Col(x.r0 != y.r0, x.r1 != y.r1, x.r2 != y.r2, x.r3 != y.r3)
  {}

  lemma ColumnKeepsXor(h: bv32 -> Col<bool>, m: bv8, a: bv32, b: bv32)
    requires forall w :: h(w) == ColumnBits(w, m)
    ensures h(LWORD.xor(a, b)) == LBOOL.xor(h(a), h(b))
  {
    hide *;
    LWordXor(a, b); ColumnBitsXor(a, b, m); LBoolXor(h(a), h(b));
  }

  lemma ColumnKeepsRor(h: bv32 -> Col<bool>, m: bv8, a: bv32)
    requires forall w :: h(w) == ColumnBits(w, m)
    ensures h(LWORD.ror8(a)) == LBOOL.ror8(h(a))
    ensures h(LWORD.ror16(a)) == LBOOL.ror16(h(a))
  {
    hide ColumnBits; hide Ror8; hide Ror16; hide Left; hide Left2;
    ColumnBitsRor(a, m);
  }

  lemma ColumnHom(h: bv32 -> Col<bool>, m: bv8)
    requires forall w :: h(w) == ColumnBits(w, m)
    ensures LinHom(h, LWORD, LBOOL)
  {
    hide ColumnBits; hide Ror8; hide Ror16;
    forall a, b ensures h(LWORD.xor(a, b)) == LBOOL.xor(h(a), h(b)) { ColumnKeepsXor(h, m, a, b); }
    forall a ensures h(LWORD.ror8(a)) == LBOOL.ror8(h(a)) { ColumnKeepsRor(h, m, a); }
    forall a ensures h(LWORD.ror16(a)) == LBOOL.ror16(h(a)) { ColumnKeepsRor(h, m, a); }
  }

  /** One bit for each of the 32 bits of a column. */
  const BASIS: Oct<Col<bv32>> :=
    Oct(Col(0x1, 0x100, 0x1_0000, 0x100_0000), Col(0x2, 0x200, 0x2_0000, 0x200_0000),
        Col(0x4, 0x400, 0x4_0000, 0x400_0000), Col(0x8, 0x800, 0x8_0000, 0x800_0000),
        Col(0x10, 0x1000, 0x10_0000, 0x1000_0000), Col(0x20, 0x2000, 0x20_0000, 0x2000_0000),
        Col(0x40, 0x4000, 0x40_0000, 0x4000_0000), Col(0x80, 0x8000, 0x80_0000, 0x8000_0000))

  /** The four bytes of a column. */
  function Rows<T>(q: Oct<Col<T>>): Col<Oct<T>> {
    Col(Map(q, (c: Col<T>) => c.r0), Map(q, (c: Col<T>) => c.r1),
        Map(q, (c: Col<T>) => c.r2), Map(q, (c: Col<T>) => c.r3))
  }

  lemma MixOnBasis()
    ensures Rows(AesCt.MixColumns(BASIS, FORM)) == MixColumn(Rows(BASIS), XOR)
  {
  }

  lemma InvMixOnBasis()
    ensures InvMixColumns(AesCt.MixColumns(BASIS, FORM), FORM) == BASIS
  {
  }

  function And(a: Byte, b: Byte): Byte {
    Oct(a.b0 && b.b0, a.b1 && b.b1, a.b2 && b.b2, a.b3 && b.b3, a.b4 && b.b4, a.b5 && b.b5, a.b6 && b.b6, a.b7 && b.b7)
  }

  function Parity(a: Byte): bool {
    ((a.b0 != a.b1) != (a.b2 != a.b3)) != ((a.b4 != a.b5) != (a.b6 != a.b7))
  }

  lemma ParityAdd(a: Byte, b: Byte)
    ensures Parity(Add(a, b)) == (Parity(a) != Parity(b))
  {}

  lemma AndAdd(a: Byte, b: Byte, v: Byte)
    ensures And(Add(a, b), v) == Add(And(a, v), And(b, v))
  {}

  /** The sum of the bits of v that w selects. */
  function Dot(w: bv32, v: Col<Byte>): bool {
    (Parity(And(RowByte(w, 0), v.r0)) != Parity(And(RowByte(w, 1), v.r1)))
    != (Parity(And(RowByte(w, 2), v.r2)) != Parity(And(RowByte(w, 3), v.r3)))
  }

  lemma DotRow(a: bv32, b: bv32, r: bv8, v: Byte)
    requires r < 4
    ensures Parity(And(RowByte(a ^ b, r), v)) == (Parity(And(RowByte(a, r), v)) != Parity(And(RowByte(b, r), v)))
  {
    hide *;
    RowXor(a, b, r);
    AndAdd(RowByte(a, r), RowByte(b, r), v);
    ParityAdd(And(RowByte(a, r), v), And(RowByte(b, r), v));
  }

  lemma DotXor(a: bv32, b: bv32, v: Col<Byte>)
    ensures Dot(a ^ b, v) == (Dot(a, v) != Dot(b, v))
  {
    hide RowByte; hide Parity; hide And;
    DotRow(a, b, 0, v.r0); DotRow(a, b, 1, v.r1); DotRow(a, b, 2, v.r2); DotRow(a, b, 3, v.r3);
  }

  lemma LiftHom<T(!new), U(!new)>(d: T -> U, x: (T, T) -> T, y: (U, U) -> U)
    requires forall a, b :: d(x(a, b)) == y(d(a), d(b))
    ensures LinHom((c: Col<T>) => Each(c, d), ColLin(x), ColLin(y))
  {
  }

  lemma MixColumnNatural<T(!new), U(!new)>(s: Col<Oct<T>>, h: T -> U, x: (T, T) -> T, y: (U, U) -> U)
    requires forall a, b :: h(x(a, b)) == y(h(a), h(b))
    ensures Each(MixColumn(s, x), o => Map(o, h)) == MixColumn(Each(s, o => Map(o, h)), y)
  {
  }

  lemma DotKeepsXor(d: bv32 -> bool, v: Col<Byte>, a: bv32, b: bv32)
    requires forall w :: d(w) == Dot(w, v)
    ensures d(XOR(a, b)) == BOOL.xor(d(a), d(b))
  {
    hide *;
    XorWords(a, b);
    DotXor(a, b, v);
    BoolOps(d(a), d(b));
  }

  lemma XorWords(a: bv32, b: bv32) ensures XOR(a, b) == a ^ b {}

  lemma BasisLow(x: Oct<Col<bool>>, d: bv32 -> bool)
    requires forall w :: d(w) == Dot(w, Rows(x))
    ensures Each(BASIS.b0, d) == x.b0
    ensures Each(BASIS.b1, d) == x.b1
    ensures Each(BASIS.b2, d) == x.b2
    ensures Each(BASIS.b3, d) == x.b3
  {
  }

  lemma BasisHigh(x: Oct<Col<bool>>, d: bv32 -> bool)
    requires forall w :: d(w) == Dot(w, Rows(x))
    ensures Each(BASIS.b4, d) == x.b4
    ensures Each(BASIS.b5, d) == x.b5
    ensures Each(BASIS.b6, d) == x.b6
    ensures Each(BASIS.b7, d) == x.b7
  {
  }

  /** The linear layer of the code is MixColumns, and the inverse layer undoes it. */
  lemma MixIsFips(x: Oct<Col<bool>>)
    ensures Rows(AesCt.MixColumns(x, LBOOL)) == MixColumn(Rows(x), BOOL.xor)
    ensures InvMixColumns(AesCt.MixColumns(x, LBOOL), LBOOL) == x
  {
    hide Dot; hide AesCt.MixColumns; hide InvMixColumns; hide MixColumn;
    var d := (w: bv32) => Dot(w, Rows(x));
    forall a, b ensures d(XOR(a, b)) == BOOL.xor(d(a), d(b)) { DotKeepsXor(d, Rows(x), a, b); }
    var h := (c: Col<bv32>) => Each(c, d);
    LiftHom(d, XOR, BOOL.xor);
    BasisLow(x, d); BasisHigh(x, d);
    var y := AesCt.MixColumns(BASIS, FORM);
    assert Map(BASIS, h) == x;
    MixColumnsNatural(BASIS, h, FORM, LBOOL);
    assert Map(y, h) == AesCt.MixColumns(x, LBOOL);
    InvMixColumnsNatural(y, h, FORM, LBOOL);
    MixOnBasis(); InvMixOnBasis();
    MixColumnNatural(Rows(BASIS), d, XOR, BOOL.xor);
    assert Rows(Map(y, h)) == Each(Rows(y), o => Map(o, d));
    assert Rows(Map(BASIS, h)) == Each(Rows(BASIS), o => Map(o, d));
  }

  // ---------------------------------------------------------------------------
  // Steps on all bytes

  lemma PlusNatural<T(!new), U(!new)>(a: Oct<T>, b: Oct<T>, h: T -> U, s: Ops<T>, t: Ops<U>)
    requires Hom(h, s, t)
    ensures Map(Plus(a, b, s.xor), h) == Plus(Map(a, h), Map(b, h), t.xor)
  {}

  lemma AddRoundKeyByte(q: Words, key: Words, k: bv8)
    ensures ByteAt(AesCt.AddRoundKey(q, key), k) == Add(ByteAt(q, k), ByteAt(key, k))
  {
    hide Bit; hide Map; hide Plus;
    var h := (w: bv32) => Bit(w, k);
    BitHom(h, k);
    PlusNatural(q, key, h, WORD, BOOL);
    PlusIsAdd(ByteAt(q, k), ByteAt(key, k));
  }

  /** The bytes at positions 8r .. 8r + 7. */
  function Slice(q: Words, r: bv8): Oct<Byte> {
    var k := 8 * r;
    Oct(ByteAt(q, k), ByteAt(q, k + 1), ByteAt(q, k + 2), ByteAt(q, k + 3),
        ByteAt(q, k + 4), ByteAt(q, k + 5), ByteAt(q, k + 6), ByteAt(q, k + 7))
  }

  lemma SliceIsTransposedRow(q: Words, r: bv8)
    requires r < 4
    ensures Slice(q, r) == Transpose(Row(q, r)) && Transpose(Slice(q, r)) == Row(q, r)
  {
    hide Bit;
  }

  lemma SameRows(p: Words, q: Words)
    requires Row(p, 0) == Row(q, 0) && Row(p, 1) == Row(q, 1) && Row(p, 2) == Row(q, 2) && Row(p, 3) == Row(q, 3)
    ensures p == q
  {
    hide RowByte;
    SameBytes(p.b0, q.b0); SameBytes(p.b1, q.b1); SameBytes(p.b2, q.b2); SameBytes(p.b3, q.b3);
    SameBytes(p.b4, q.b4); SameBytes(p.b5, q.b5); SameBytes(p.b6, q.b6); SameBytes(p.b7, q.b7);
  }

  /** The 32 bytes determine the words. */
  lemma SameWords(p: Words, q: Words)
    requires forall k: bv8 | k < 32 :: ByteAt(p, k) == ByteAt(q, k)
    ensures p == q
  {
    hide ByteAt; hide Transpose; hide Row;
    assert Slice(p, 0) == Slice(q, 0) && Slice(p, 1) == Slice(q, 1) && Slice(p, 2) == Slice(q, 2)
      && Slice(p, 3) == Slice(q, 3);
    SliceIsTransposedRow(p, 0); SliceIsTransposedRow(p, 1); SliceIsTransposedRow(p, 2); SliceIsTransposedRow(p, 3);
    SliceIsTransposedRow(q, 0); SliceIsTransposedRow(q, 1); SliceIsTransposedRow(q, 2); SliceIsTransposedRow(q, 3);
    SameRows(p, q);
  }

  lemma InvSboxUndoesSbox(q: Words)
    ensures InvSbox(Sbox(q, WORD), WORD) == q
  {
    hide ByteAt; hide Sbox; hide InvSbox; hide InvSubByte; hide SubByte;
    forall k: bv8 | k < 32 ensures ByteAt(InvSbox(Sbox(q, WORD), WORD), k) == ByteAt(q, k) {
      SboxByte(q, k);
      SboxByte(Sbox(q, WORD), k);
      InvSubByteUndoesSubByte(ByteAt(q, k));
    }
    SameWords(InvSbox(Sbox(q, WORD), WORD), q);
  }

  /** The columns of the words are the columns of the AES state. */
  lemma ColumnRows(q: Words, m: bv8, h: bv32 -> Col<bool>)
    requires forall w :: h(w) == ColumnBits(w, m)
    ensures Rows(Map(q, h)) == Col(ByteAt(q, m), ByteAt(q, m + 8), ByteAt(q, m + 16), ByteAt(q, m + 24))
  {
    hide Bit;
  }

  lemma MixColumnsAt(q: Words, m: bv8)
    ensures var p := AesCt.MixColumns(q, LWORD);
      Col(ByteAt(p, m), ByteAt(p, m + 8), ByteAt(p, m + 16), ByteAt(p, m + 24))
        == MixColumn(Col(ByteAt(q, m), ByteAt(q, m + 8), ByteAt(q, m + 16), ByteAt(q, m + 24)), BOOL.xor)
  {
    hide ByteAt; hide AesCt.MixColumns; hide MixColumn; hide ColumnBits; hide Map; hide Rows;
    var h := (w: bv32) => ColumnBits(w, m);
    ColumnHom(h, m);
    MixColumnsNatural(q, h, LWORD, LBOOL);
    MixIsFips(Map(q, h));
    ColumnRows(q, m, h);
    ColumnRows(AesCt.MixColumns(q, LWORD), m, h);
  }

  lemma InvMixColumnsAt(q: Words, m: bv8)
    ensures var p := InvMixColumns(AesCt.MixColumns(q, LWORD), LWORD);
      ByteAt(p, m) == ByteAt(q, m)
  {
    hide ByteAt; hide AesCt.MixColumns; hide InvMixColumns; hide ColumnBits; hide Map; hide Rows;
    var h := (w: bv32) => ColumnBits(w, m);
    ColumnHom(h, m);
    MixColumnsNatural(q, h, LWORD, LBOOL);
    InvMixColumnsNatural(AesCt.MixColumns(q, LWORD), h, LWORD, LBOOL);
    MixIsFips(Map(q, h));
    ColumnRows(q, m, h);
    ColumnRows(InvMixColumns(AesCt.MixColumns(q, LWORD), LWORD), m, h);
  }

  lemma InvMixColumnsUndoesMixColumns(q: Words)
    ensures InvMixColumns(AesCt.MixColumns(q, LWORD), LWORD) == q
  {
    hide ByteAt; hide AesCt.MixColumns; hide InvMixColumns;
    var p := InvMixColumns(AesCt.MixColumns(q, LWORD), LWORD);
    forall k: bv8 | k < 32 ensures ByteAt(p, k) == ByteAt(q, k) {
      InvMixColumnsAt(q, k);
    }
    SameWords(p, q);
  }

  lemma InvShiftRowsUndoesShiftRows(q: Words)
    ensures InvShiftRows(AesCt.ShiftRows(q)) == q
  {
    hide ShiftRow; hide InvShiftRow;
    InvShiftRowUndoes(q.b0); InvShiftRowUndoes(q.b1); InvShiftRowUndoes(q.b2); InvShiftRowUndoes(q.b3);
    InvShiftRowUndoes(q.b4); InvShiftRowUndoes(q.b5); InvShiftRowUndoes(q.b6); InvShiftRowUndoes(q.b7);
  }
}
