/** Bitsliced circuits, written once over an arbitrary Boolean algebra.

    A circuit of exclusive-ors, ands and complements commutes with every map that
    preserves those three operations.  That lets one definition serve three purposes:
    on 32-bit words it is the code of aes_ct.c, on single bits it is a function of one
    byte, and on 64-bit truth tables one evaluation checks 64 bytes at once. */
module Circuits {

  /** Eight values; component `bi` belongs to bit i (weight 2^i) of a byte. */
  datatype Oct<T> = Oct(b0: T, b1: T, b2: T, b3: T, b4: T, b5: T, b6: T, b7: T)

  type Byte = Oct<bool>

  datatype Ops<!T> = Ops(xor: (T, T) -> T, and: (T, T) -> T, not: T -> T)

  const BOOL: Ops<bool> := Ops((a, b) => a != b, (a, b) => a && b, a => !a)
  const WORD: Ops<bv32> := Ops((a, b) => a ^ b, (a, b) => a & b, a => !a)
  const TABLE: Ops<bv64> := Ops((a, b) => a ^ b, (a, b) => a & b, a => !a)

  const ZERO: Byte := Oct(false, false, false, false, false, false, false, false)
  const ONE: Byte := Oct(true, false, false, false, false, false, false, false)

  function Map<T, U>(q: Oct<T>, h: T -> U): Oct<U> {
    Oct(h(q.b0), h(q.b1), h(q.b2), h(q.b3), h(q.b4), h(q.b5), h(q.b6), h(q.b7))
  }

  ghost predicate Hom<T(!new), U(!new)>(h: T -> U, s: Ops<T>, t: Ops<U>) {
    && (forall a, b :: h(s.xor(a, b)) == t.xor(h(a), h(b)))
    && (forall a, b :: h(s.and(a, b)) == t.and(h(a), h(b)))
    && (forall a :: h(s.not(a)) == t.not(h(a)))
  }

  // ---------------------------------------------------------------------------
  // The S-box circuits of aes_ct.c and aes_ct_dec.c

  /** The Boyar-Peralta circuit. */
  function Sbox<T>(q: Oct<T>, o: Ops<T>): Oct<T> {
    var x0, x1, x2, x3 := q.b7, q.b6, q.b5, q.b4;
    var x4, x5, x6, x7 := q.b3, q.b2, q.b1, q.b0;
    // top linear transformation, shared non-linear section, bottom linear transformation
    var y14, y13, y9, y8, t0 := o.xor(x3, x5), o.xor(x0, x6), o.xor(x0, x3), o.xor(x0, x5), o.xor(x1, x2);
    var y1 := o.xor(t0, x7);
    var y4, y12, y2, y5 := o.xor(y1, x3), o.xor(y13, y14), o.xor(y1, x0), o.xor(y1, x6);
    var y3, t1 := o.xor(y5, y8), o.xor(x4, y12);
    var y15, y20 := o.xor(t1, x5), o.xor(t1, x1);
    var y6, y10, y11 := o.xor(y15, x7), o.xor(y15, t0), o.xor(y20, y9);
    var y7, y17, y19, y16 := o.xor(x7, y11), o.xor(y10, y11), o.xor(y10, y8), o.xor(t0, y11);
    var y21, y18, t2, t3 := o.xor(y13, y16), o.xor(x0, y16), o.and(y12, y15), o.and(y3, y6);
    var t4, t5 := o.xor(t3, t2), o.and(y4, x7);
    var t6, t7, t8 := o.xor(t5, t2), o.and(y13, y16), o.and(y5, y1);
    var t9, t10 := o.xor(t8, t7), o.and(y2, y7);
    var t11, t12, t13 := o.xor(t10, t7), o.and(y9, y11), o.and(y14, y17);
    var t14, t15 := o.xor(t13, t12), o.and(y8, y10);
    var t16, t17 := o.xor(t15, t12), o.xor(t4, t14);
    var t18, t19, t20, t21 := o.xor(t6, t16), o.xor(t9, t14), o.xor(t11, t16), o.xor(t17, y20);
    var t22, t23, t24 := o.xor(t18, y19), o.xor(t19, y21), o.xor(t20, y18);
    var t25, t26 := o.xor(t21, t22), o.and(t21, t23);
    var t27 := o.xor(t24, t26);
    var t28 := o.and(t25, t27);
    var t29, t30, t31 := o.xor(t28, t22), o.xor(t23, t24), o.xor(t22, t26);
    var t32 := o.and(t31, t30);
    var t33 := o.xor(t32, t24);
    var t34, t35 := o.xor(t23, t33), o.xor(t27, t33);
    var t36 := o.and(t24, t35);
    var t37, t38 := o.xor(t36, t34), o.xor(t27, t36);
    var t39 := o.and(t29, t38);
    var t40 := o.xor(t25, t39);
    var t41, t42, t43, t44 := o.xor(t40, t37), o.xor(t29, t33), o.xor(t29, t40), o.xor(t33, t37);
    var t45, z0, z1, z2, z3 := o.xor(t42, t41), o.and(t44, y15), o.and(t37, y6), o.and(t33, x7), o.and(t43, y16);
    var z4, z5, z6, z7, z8 := o.and(t40, y1), o.and(t29, y7), o.and(t42, y11), o.and(t45, y17), o.and(t41, y10);
    var z9, z10, z11, z12, z13 := o.and(t44, y12), o.and(t37, y3), o.and(t33, y4), o.and(t43, y13), o.and(t40, y5);
    var z14, z15, z16, z17 := o.and(t29, y2), o.and(t42, y9), o.and(t45, y14), o.and(t41, y8);
    var t46, t47, t48, t49, t50 := o.xor(z15, z16), o.xor(z10, z11), o.xor(z5, z13), o.xor(z9, z10), o.xor(z2, z12);
    var t51, t52, t53, t54, t55 := o.xor(z2, z5), o.xor(z7, z8), o.xor(z0, z3), o.xor(z6, z7), o.xor(z16, z17);
    var t56, t57, t58, t59 := o.xor(z12, t48), o.xor(t50, t53), o.xor(z4, t46), o.xor(z3, t54);
    var t60, t61, t62, t63, t64 := o.xor(t46, t57), o.xor(z14, t57), o.xor(t52, t58), o.xor(t49, t58), o.xor(z4, t59);
    var t65, t66, s0, s6, s7 := o.xor(t61, t62), o.xor(z1, t63), o.xor(t59, t63),
                                o.xor(t56, o.not(t62)), o.xor(t48, o.not(t60));
    var t67, s3, s4, s5 := o.xor(t64, t65), o.xor(t53, t66), o.xor(t51, t66), o.xor(t47, t65);
    var s1, s2 := o.xor(t64, o.not(s3)), o.xor(t55, o.not(t67));
    Oct(s7, s6, s5, s4, s3, s2, s1, s0)
  }

  /** B(x + 0x63), where B is the inverse of the linear map of the S-box. */
  function Unaffine<T>(q: Oct<T>, o: Ops<T>): Oct<T> {
    var q0, q1, q5, q6 := o.not(q.b0), o.not(q.b1), o.not(q.b5), o.not(q.b6);
    var q2, q3, q4, q7 := q.b2, q.b3, q.b4, q.b7;
    Oct(o.xor(o.xor(q2, q5), q7), o.xor(o.xor(q3, q6), q0),
        o.xor(o.xor(q4, q7), q1), o.xor(o.xor(q5, q0), q2),
        o.xor(o.xor(q6, q1), q3), o.xor(o.xor(q7, q2), q4),
        o.xor(o.xor(q0, q3), q5), o.xor(o.xor(q1, q4), q6))
  }

  function Xor5<T>(a: T, b: T, c: T, d: T, e: T, o: Ops<T>): T {
    o.xor(o.xor(o.xor(o.xor(a, b), c), d), e)
  }

  /** Equation 5.1 of FIPS 197: the affine transformation of the S-box, with constant 0x63. */
  function Affine<T>(q: Oct<T>, o: Ops<T>): Oct<T> {
    Oct(o.not(Xor5(q.b0, q.b4, q.b5, q.b6, q.b7, o)), o.not(Xor5(q.b1, q.b5, q.b6, q.b7, q.b0, o)),
        Xor5(q.b2, q.b6, q.b7, q.b0, q.b1, o), Xor5(q.b3, q.b7, q.b0, q.b1, q.b2, o),
        Xor5(q.b4, q.b0, q.b1, q.b2, q.b3, o), o.not(Xor5(q.b5, q.b1, q.b2, q.b3, q.b4, o)),
        o.not(Xor5(q.b6, q.b2, q.b3, q.b4, q.b5, o)), Xor5(q.b7, q.b3, q.b4, q.b5, q.b6, o))
  }

  function InvSbox<T>(q: Oct<T>, o: Ops<T>): Oct<T> {
    Unaffine(Sbox(Unaffine(q, o), o), o)
  }

  // ---------------------------------------------------------------------------
  // The field GF(2^8) of FIPS 197, section 4, as circuits

  /** Addition (section 4.1). */
  function Plus<T>(a: Oct<T>, b: Oct<T>, xor: (T, T) -> T): Oct<T> {
    Oct(xor(a.b0, b.b0), xor(a.b1, b.b1), xor(a.b2, b.b2), xor(a.b3, b.b3),
        xor(a.b4, b.b4), xor(a.b5, b.b5), xor(a.b6, b.b6), xor(a.b7, b.b7))
  }

  function Add(a: Byte, b: Byte): Byte {
    Oct(a.b0 != b.b0, a.b1 != b.b1, a.b2 != b.b2, a.b3 != b.b3,
        a.b4 != b.b4, a.b5 != b.b5, a.b6 != b.b6, a.b7 != b.b7)
  }

  lemma PlusIsAdd(a: Byte, b: Byte)
    ensures Plus(a, b, BOOL.xor) == Add(a, b)
  {
  }

  /** Multiplication by x modulo x^8 + x^4 + x^3 + x + 1 (section 4.2.1). */
  function XTime<T>(a: Oct<T>, xor: (T, T) -> T): Oct<T> {
    Oct(a.b7, xor(a.b0, a.b7), a.b1, xor(a.b2, a.b7), xor(a.b3, a.b7), a.b4, a.b5, a.b6)
  }

  function Scale<T>(a: Oct<T>, s: T, o: Ops<T>): Oct<T> {
    Map(a, x => o.and(x, s))
  }

  /** Multiplication (section 4.2). */
  function Times<T>(a: Oct<T>, b: Oct<T>, o: Ops<T>): Oct<T> {
    var a1 := XTime(a, o.xor);
    var a2 := XTime(a1, o.xor);
    var a3 := XTime(a2, o.xor);
    var a4 := XTime(a3, o.xor);
    var a5 := XTime(a4, o.xor);
    var a6 := XTime(a5, o.xor);
    var a7 := XTime(a6, o.xor);
    var c0 := Plus(Scale(a, b.b0, o), Scale(a1, b.b1, o), o.xor);
    var c1 := Plus(c0, Scale(a2, b.b2, o), o.xor);
    var c2 := Plus(c1, Scale(a3, b.b3, o), o.xor);
    var c3 := Plus(c2, Scale(a4, b.b4, o), o.xor);
    var c4 := Plus(c3, Scale(a5, b.b5, o), o.xor);
    var c5 := Plus(c4, Scale(a6, b.b6, o), o.xor);
    Plus(c5, Scale(a7, b.b7, o), o.xor)
  }

  // ---------------------------------------------------------------------------
  // Circuits commute with homomorphisms

  lemma SboxNatural<T(!new), U(!new)>(q: Oct<T>, h: T -> U, s: Ops<T>, t: Ops<U>)
    requires Hom(h, s, t)
    ensures Map(Sbox(q, s), h) == Sbox(Map(q, h), t)
  {
  }

  lemma UnaffineNatural<T(!new), U(!new)>(q: Oct<T>, h: T -> U, s: Ops<T>, t: Ops<U>)
    requires Hom(h, s, t)
    ensures Map(Unaffine(q, s), h) == Unaffine(Map(q, h), t)
  {
  }

  lemma AffineNatural<T(!new), U(!new)>(q: Oct<T>, h: T -> U, s: Ops<T>, t: Ops<U>)
    requires Hom(h, s, t)
    ensures Map(Affine(q, s), h) == Affine(Map(q, h), t)
  {
  }

  lemma InvSboxNatural<T(!new), U(!new)>(q: Oct<T>, h: T -> U, s: Ops<T>, t: Ops<U>)
    requires Hom(h, s, t)
    ensures Map(InvSbox(q, s), h) == InvSbox(Map(q, h), t)
  {
    hide Sbox; hide Unaffine; hide Map;
    UnaffineNatural(q, h, s, t);
    SboxNatural(Unaffine(q, s), h, s, t);
    UnaffineNatural(Sbox(Unaffine(q, s), s), h, s, t);
  }

  lemma TimesNatural<T(!new), U(!new)>(a: Oct<T>, b: Oct<T>, h: T -> U, s: Ops<T>, t: Ops<U>)
    requires Hom(h, s, t)
    ensures Map(Times(a, b, s), h) == Times(Map(a, h), Map(b, h), t)
  {
  }

  // ---------------------------------------------------------------------------
  // Truth tables: bit k of a 64-bit column is the value on the byte with low bits k

  function Entry(w: bv64, k: bv8): bool {
    (w >> (k & 63)) & 1 == 1
  }

  lemma EntryXor(a: bv64, b: bv64, k: bv8)
    ensures Entry(a ^ b, k) == (Entry(a, k) != Entry(b, k))
  {
  }

  lemma EntryAnd(a: bv64, b: bv64, k: bv8)
    ensures Entry(a & b, k) == (Entry(a, k) && Entry(b, k))
  {
  }

  lemma EntryNot(a: bv64, k: bv8)
    ensures Entry(!a, k) == !Entry(a, k)
  {
  }

  lemma TableXor(a: bv64, b: bv64)
    ensures TABLE.xor(a, b) == a ^ b
  {
  }

  lemma TableAnd(a: bv64, b: bv64)
    ensures TABLE.and(a, b) == a & b
  {
  }

  lemma TableNot(a: bv64)
    ensures TABLE.not(a) == !a
  {
  }

  lemma BoolOps(a: bool, b: bool)
    ensures BOOL.xor(a, b) == (a != b) && BOOL.and(a, b) == (a && b) && BOOL.not(a) == !a
  {
  }

  lemma EntryKeepsXor(h: bv64 -> bool, k: bv8, a: bv64, b: bv64)
    requires forall w :: h(w) == Entry(w, k)
    ensures h(TABLE.xor(a, b)) == BOOL.xor(h(a), h(b))
  {
    hide *;
    TableXor(a, b);
    EntryXor(a, b, k);
    BoolOps(h(a), h(b));
  }

  lemma EntryKeepsAnd(h: bv64 -> bool, k: bv8, a: bv64, b: bv64)
    requires forall w :: h(w) == Entry(w, k)
    ensures h(TABLE.and(a, b)) == BOOL.and(h(a), h(b))
  {
    hide *;
    TableAnd(a, b);
    EntryAnd(a, b, k);
    BoolOps(h(a), h(b));
  }

  lemma EntryKeepsNot(h: bv64 -> bool, k: bv8, a: bv64)
    requires forall w :: h(w) == Entry(w, k)
    ensures h(TABLE.not(a)) == BOOL.not(h(a))
  {
    hide *;
    TableNot(a);
    EntryNot(a, k);
    BoolOps(h(a), h(a));
  }

  lemma EntryHom(h: bv64 -> bool, k: bv8)
    requires forall w :: h(w) == Entry(w, k)
    ensures Hom(h, TABLE, BOOL)
  {
    hide Entry;
    forall a, b ensures h(TABLE.xor(a, b)) == BOOL.xor(h(a), h(b)) {
      EntryKeepsXor(h, k, a, b);
    }
    forall a, b ensures h(TABLE.and(a, b)) == BOOL.and(h(a), h(b)) {
      EntryKeepsAnd(h, k, a, b);
    }
    forall a ensures h(TABLE.not(a)) == BOOL.not(h(a)) {
      EntryKeepsNot(h, k, a);
    }
  }

  const ALL: bv64 := 0xFFFF_FFFF_FFFF_FFFF

  function Fill(b: bool): bv64 { if b then ALL else 0 }

  /** The truth tables of the eight bits of a byte whose two high bits are fixed. */
  function Columns(b6: bool, b7: bool): Oct<bv64> {
    Oct(0xAAAA_AAAA_AAAA_AAAA, 0xCCCC_CCCC_CCCC_CCCC, 0xF0F0_F0F0_F0F0_F0F0, 0xFF00_FF00_FF00_FF00,
        0xFFFF_0000_FFFF_0000, 0xFFFF_FFFF_0000_0000, Fill(b6), Fill(b7))
  }

  function Weight(b: bool, v: bv8): bv8 { if b then v else 0 }

  function Index(x: Byte): bv8 {
    Weight(x.b0, 1) | Weight(x.b1, 2) | Weight(x.b2, 4)
    | Weight(x.b3, 8) | Weight(x.b4, 16) | Weight(x.b5, 32)
  }

  lemma ColumnsHitEveryByte(x: Byte)
    ensures Map(Columns(x.b6, x.b7), (w: bv64) => Entry(w, Index(x))) == x
  {
  }

  predicate RoundTripTable(b6: bool, b7: bool) {
    InvSbox(Sbox(Columns(b6, b7), TABLE), TABLE) == Columns(b6, b7)
  }

  lemma RoundTripTable00() ensures RoundTripTable(false, false) { }
  lemma RoundTripTable01() ensures RoundTripTable(false, true) { }
  lemma RoundTripTable10() ensures RoundTripTable(true, false) { }
  lemma RoundTripTable11() ensures RoundTripTable(true, true) { }

  predicate BackTable(b6: bool, b7: bool) {
    Sbox(InvSbox(Columns(b6, b7), TABLE), TABLE) == Columns(b6, b7)
  }

  lemma BackTable00() ensures BackTable(false, false) { }
  lemma BackTable01() ensures BackTable(false, true) { }
  lemma BackTable10() ensures BackTable(true, false) { }
  lemma BackTable11() ensures BackTable(true, true) { }

  predicate AffineTable(b6: bool, b7: bool) {
    Affine(Unaffine(Columns(b6, b7), TABLE), TABLE) == Columns(b6, b7)
  }

  lemma AffineTables()
    ensures AffineTable(false, false) && AffineTable(false, true)
    ensures AffineTable(true, false) && AffineTable(true, true)
  {
  }

  /** Column of "the byte is not zero". */
  function NonZero(b6: bool, b7: bool): bv64 {
    if b6 || b7 then ALL else 0xFFFF_FFFF_FFFF_FFFE
  }

  predicate InverseTable(b6: bool, b7: bool) {
    Times(Columns(b6, b7), Unaffine(Sbox(Columns(b6, b7), TABLE), TABLE), TABLE)
      == Oct(NonZero(b6, b7), 0, 0, 0, 0, 0, 0, 0)
  }

  lemma InverseTable00() ensures InverseTable(false, false) { }
  lemma InverseTable01() ensures InverseTable(false, true) { }
  lemma InverseTable10() ensures InverseTable(true, false) { }
  lemma InverseTable11() ensures InverseTable(true, true) { }

  // ---------------------------------------------------------------------------
  // The S-box on one byte

  function SubByte(x: Byte): Byte { Sbox(x, BOOL) }

  function InvSubByte(x: Byte): Byte { InvSbox(x, BOOL) }

  /** The decryption circuit inverts the encryption circuit on every byte. */
  lemma InvSubByteUndoesSubByte(x: Byte)
    ensures InvSubByte(SubByte(x)) == x
  {
    hide Sbox; hide Unaffine; hide Map; hide Index; hide Entry; hide InvSbox; hide Columns;
    var h := (w: bv64) => Entry(w, Index(x));
    var c := Columns(x.b6, x.b7);
    EntryHom(h, Index(x));
    ColumnsHitEveryByte(x);
    SboxNatural(c, h, TABLE, BOOL);
    InvSboxNatural(Sbox(c, TABLE), h, TABLE, BOOL);
    assert RoundTripTable(x.b6, x.b7) by {
      RoundTripTable00(); RoundTripTable01(); RoundTripTable10(); RoundTripTable11();
    }
  }

  /** And the other way round. */
  lemma SubByteUndoesInvSubByte(x: Byte)
    ensures SubByte(InvSubByte(x)) == x
  {
    hide Sbox; hide Unaffine; hide Map; hide Index; hide Entry; hide InvSbox; hide Columns;
    var h := (w: bv64) => Entry(w, Index(x));
    var c := Columns(x.b6, x.b7);
    EntryHom(h, Index(x));
    ColumnsHitEveryByte(x);
    InvSboxNatural(c, h, TABLE, BOOL);
    SboxNatural(InvSbox(c, TABLE), h, TABLE, BOOL);
    assert BackTable(x.b6, x.b7) by {
      BackTable00(); BackTable01(); BackTable10(); BackTable11();
    }
  }

  lemma AffineUndoesUnaffine(y: Byte)
    ensures Affine(Unaffine(y, BOOL), BOOL) == y
  {
    hide Unaffine; hide Affine; hide Map; hide Index; hide Entry; hide Columns;
    var h := (w: bv64) => Entry(w, Index(y));
    var c := Columns(y.b6, y.b7);
    EntryHom(h, Index(y));
    ColumnsHitEveryByte(y);
    UnaffineNatural(c, h, TABLE, BOOL);
    AffineNatural(Unaffine(c, TABLE), h, TABLE, BOOL);
    assert AffineTable(y.b6, y.b7) by {
      AffineTables();
    }
  }

  predicate IsInverse(x: Byte, y: Byte) {
    if x == ZERO then y == ZERO else Times(x, y, BOOL) == ONE
  }

  /** y is the affine transformation of the inverse of x. */
  ghost predicate IsSubByte(x: Byte, y: Byte) { exists i: Byte :: IsInverse(x, i) && y == Affine(i, BOOL) }

  lemma InverseOfZero()
    ensures Unaffine(SubByte(ZERO), BOOL) == ZERO
  {
  }

  lemma NonZeroEntry(x: Byte)
    ensures Entry(NonZero(x.b6, x.b7), Index(x)) == (x != ZERO)
    ensures !Entry(0, Index(x))
  {
  }

  lemma InverseByTable(x: Byte)
    ensures Times(x, Unaffine(SubByte(x), BOOL), BOOL) == if x == ZERO then ZERO else ONE
  {
    hide Sbox; hide Unaffine; hide Index; hide Entry; hide Columns; hide Times; hide NonZero;
    var h := (w: bv64) => Entry(w, Index(x));
    var c := Columns(x.b6, x.b7);
    var i := Unaffine(Sbox(c, TABLE), TABLE);
    EntryHom(h, Index(x));
    assert Map(c, h) == x && Map(i, h) == Unaffine(SubByte(x), BOOL) by {
      hide Map;
      ColumnsHitEveryByte(x);
      SboxNatural(c, h, TABLE, BOOL);
      UnaffineNatural(Sbox(c, TABLE), h, TABLE, BOOL);
    }
    TimesNatural(c, i, h, TABLE, BOOL);
    NonZeroEntry(x);
    assert InverseTable(x.b6, x.b7) by {
      InverseTable00(); InverseTable01(); InverseTable10(); InverseTable11();
    }
  }

  /** The circuit is the S-box of section 5.1.1 of FIPS 197: the multiplicative inverse
      in GF(2^8), zero mapped to itself, followed by the affine transformation. */
  lemma SubByteIsAffineOfInverse(x: Byte)
    ensures IsSubByte(x, SubByte(x))
  {
    var i := Unaffine(SubByte(x), BOOL);
    assert IsInverse(x, i) by {
      hide Sbox; hide Unaffine; hide Times;
      InverseByTable(x);
      InverseOfZero();
    }
    AffineUndoesUnaffine(SubByte(x));
  }
}
