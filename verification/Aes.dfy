/** The AES block cipher as FIPS 197 states it: four columns of four bytes. */
module Aes {
  import opened Circuits

  datatype Col<T> = Col(r0: T, r1: T, r2: T, r3: T)

  datatype State = State(c0: Col<Byte>, c1: Col<Byte>, c2: Col<Byte>, c3: Col<Byte>)

  function Each<T, U>(c: Col<T>, h: T -> U): Col<U> {
    Col(h(c.r0), h(c.r1), h(c.r2), h(c.r3))
  }

  // ---------------------------------------------------------------------------
  // Section 5.1: the cipher

  function SubWord(c: Col<Byte>): Col<Byte> {
    Col(SubByte(c.r0), SubByte(c.r1), SubByte(c.r2), SubByte(c.r3))
  }

  /** Section 5.1.1. */
  function SubBytes(s: State): State {
    State(SubWord(s.c0), SubWord(s.c1), SubWord(s.c2), SubWord(s.c3))
  }

  /** Section 5.1.2: row r moves left by r columns. */
  function ShiftRows(s: State): State {
    State(Col(s.c0.r0, s.c1.r1, s.c2.r2, s.c3.r3),
          Col(s.c1.r0, s.c2.r1, s.c3.r2, s.c0.r3),
          Col(s.c2.r0, s.c3.r1, s.c0.r2, s.c1.r3),
          Col(s.c3.r0, s.c0.r1, s.c1.r2, s.c2.r3))
  }

  /** Section 5.1.3: a column times {03}x^3 + {01}x^2 + {01}x + {02}. */
  function MixColumn<T>(s: Col<Oct<T>>, xor: (T, T) -> T): Col<Oct<T>> {
    var d0, d1 := XTime(s.r0, xor), XTime(s.r1, xor);
    var d2, d3 := XTime(s.r2, xor), XTime(s.r3, xor);
    Col(Plus(Plus(d0, Plus(d1, s.r1, xor), xor), Plus(s.r2, s.r3, xor), xor),
        Plus(Plus(s.r0, d1, xor), Plus(Plus(d2, s.r2, xor), s.r3, xor), xor),
        Plus(Plus(s.r0, s.r1, xor), Plus(d2, Plus(d3, s.r3, xor), xor), xor),
        Plus(Plus(Plus(d0, s.r0, xor), s.r1, xor), Plus(s.r2, d3, xor), xor))
  }

  function MixColumns(s: State): State {
    State(MixColumn(s.c0, BOOL.xor), MixColumn(s.c1, BOOL.xor),
          MixColumn(s.c2, BOOL.xor), MixColumn(s.c3, BOOL.xor))
  }

  function AddWord(a: Col<Byte>, b: Col<Byte>): Col<Byte> {
    Col(Add(a.r0, b.r0), Add(a.r1, b.r1), Add(a.r2, b.r2), Add(a.r3, b.r3))
  }

  /** Section 5.1.4. */
  function AddRoundKey(s: State, k: State): State {
    State(AddWord(s.c0, k.c0), AddWord(s.c1, k.c1), AddWord(s.c2, k.c2), AddWord(s.c3, k.c3))
  }

  /** The state after round u, all rounds so far being full ones. */
  function Rounds(keys: seq<State>, s: State, u: nat): State
    requires u < |keys|
  {
    if u == 0 then AddRoundKey(s, keys[0])
    else AddRoundKey(MixColumns(ShiftRows(SubBytes(Rounds(keys, s, u - 1)))), keys[u])
  }

  /** Figure 5: the last round leaves out MixColumns. */
  function Cipher(keys: seq<State>, s: State): State
    requires 2 <= |keys|
  {
    AddRoundKey(ShiftRows(SubBytes(Rounds(keys, s, |keys| - 2))), keys[|keys| - 1])
  }

  // ---------------------------------------------------------------------------
  // Section 5.2: key expansion

  function RotWord(c: Col<Byte>): Col<Byte> { Col(c.r1, c.r2, c.r3, c.r0) }

  /** {02}^(i-1), the first byte of Rcon[i]; the other three are zero. */
  function RoundConstant(i: nat): Byte {
    if i <= 1 then ONE else XTime(RoundConstant(i - 1), BOOL.xor)
  }

  function Temp(prev: Col<Byte>, nk: nat, i: nat): Col<Byte>
    requires 0 < nk
  {
    if i % nk == 0 then
      AddWord(SubWord(RotWord(prev)), Col(RoundConstant(i / nk), ZERO, ZERO, ZERO))
    else if nk > 6 && i % nk == 4 then SubWord(prev)
    else prev
  }

  /** Word i of the expanded key. */
  function KeyWord(key: seq<Col<Byte>>, i: nat): Col<Byte>
    requires 0 < |key|
    decreases i
  {
    if i < |key| then key[i]
    else AddWord(KeyWord(key, i - |key|), Temp(KeyWord(key, i - 1), |key|, i))
  }

  /** Round key u. */
  function RoundKey(key: seq<Col<Byte>>, u: nat): State
    requires 0 < |key|
  {
    State(KeyWord(key, 4 * u), KeyWord(key, 4 * u + 1), KeyWord(key, 4 * u + 2), KeyWord(key, 4 * u + 3))
  }
}
