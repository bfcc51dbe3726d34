/** The worked example of FIPS 197: the key expansion of appendix A.1 and the first round of appendix B. */
module AesExample {
  import opened Circuits
  import opened Aes
  import opened Blocks

  const KEY: seq<byte> := [0x2b, 0x7e, 0x15, 0x16, 0x28, 0xae, 0xd2, 0xa6,
                           0xab, 0xf7, 0x15, 0x88, 0x09, 0xcf, 0x4f, 0x3c]

  const INPUT: Block := [0x32, 0x43, 0xf6, 0xa8, 0x88, 0x5a, 0x30, 0x8d,
                         0x31, 0x31, 0x98, 0xa2, 0xe0, 0x37, 0x07, 0x34]

  function KeyState(): State {
    State(Col(Unpack(0x2b), Unpack(0x7e), Unpack(0x15), Unpack(0x16)),
          Col(Unpack(0x28), Unpack(0xae), Unpack(0xd2), Unpack(0xa6)),
          Col(Unpack(0xab), Unpack(0xf7), Unpack(0x15), Unpack(0x88)),
          Col(Unpack(0x09), Unpack(0xcf), Unpack(0x4f), Unpack(0x3c)))
  }

  function NextKeyState(): State {
    State(Col(Unpack(0xa0), Unpack(0xfa), Unpack(0xfe), Unpack(0x17)),
          Col(Unpack(0x88), Unpack(0x54), Unpack(0x2c), Unpack(0xb1)),
          Col(Unpack(0x23), Unpack(0xa3), Unpack(0x39), Unpack(0x39)),
          Col(Unpack(0x2a), Unpack(0x6c), Unpack(0x76), Unpack(0x05)))
  }

  function Start(): State {
    State(Col(Unpack(0x19), Unpack(0x3d), Unpack(0xe3), Unpack(0xbe)),
          Col(Unpack(0xa0), Unpack(0xf4), Unpack(0xe2), Unpack(0x2b)),
          Col(Unpack(0x9a), Unpack(0xc6), Unpack(0x8d), Unpack(0x2a)),
          Col(Unpack(0xe9), Unpack(0xf8), Unpack(0x48), Unpack(0x08)))
  }

  function Substituted(): State {
    State(Col(Unpack(0xd4), Unpack(0x27), Unpack(0x11), Unpack(0xae)),
          Col(Unpack(0xe0), Unpack(0xbf), Unpack(0x98), Unpack(0xf1)),
          Col(Unpack(0xb8), Unpack(0xb4), Unpack(0x5d), Unpack(0xe5)),
          Col(Unpack(0x1e), Unpack(0x41), Unpack(0x52), Unpack(0x30)))
  }

  function Shifted(): State {
    State(Col(Unpack(0xd4), Unpack(0xbf), Unpack(0x5d), Unpack(0x30)),
          Col(Unpack(0xe0), Unpack(0xb4), Unpack(0x52), Unpack(0xae)),
          Col(Unpack(0xb8), Unpack(0x41), Unpack(0x11), Unpack(0xf1)),
          Col(Unpack(0x1e), Unpack(0x27), Unpack(0x98), Unpack(0xe5)))
  }

  function Mixed(): State {
    State(Col(Unpack(0x04), Unpack(0x66), Unpack(0x81), Unpack(0xe5)),
          Col(Unpack(0xe0), Unpack(0xcb), Unpack(0x19), Unpack(0x9a)),
          Col(Unpack(0x48), Unpack(0xf8), Unpack(0xd3), Unpack(0x7a)),
          Col(Unpack(0x28), Unpack(0x06), Unpack(0x26), Unpack(0x4c)))
  }

  function End(): State {
    State(Col(Unpack(0xa4), Unpack(0x9c), Unpack(0x7f), Unpack(0xf2)),
          Col(Unpack(0x68), Unpack(0x9f), Unpack(0x35), Unpack(0x2b)),
          Col(Unpack(0x6b), Unpack(0x5b), Unpack(0xea), Unpack(0x43)),
          Col(Unpack(0x02), Unpack(0x6a), Unpack(0x50), Unpack(0x49)))
  }

  lemma Substitutes0()
    ensures SubWord(Start().c0) == Substituted().c0
  {
  }

  lemma Substitutes1()
    ensures SubWord(Start().c1) == Substituted().c1
  {
  }

  lemma Substitutes2()
    ensures SubWord(Start().c2) == Substituted().c2
  {
  }

  lemma Substitutes3()
    ensures SubWord(Start().c3) == Substituted().c3
  {
  }

  lemma Mixes0()
    ensures MixColumn(Shifted().c0, BOOL.xor) == Mixed().c0
  {
  }

  lemma Mixes1()
    ensures MixColumn(Shifted().c1, BOOL.xor) == Mixed().c1
  {
  }

  lemma Mixes2()
    ensures MixColumn(Shifted().c2, BOOL.xor) == Mixed().c2
  {
  }

  lemma Mixes3()
    ensures MixColumn(Shifted().c3, BOOL.xor) == Mixed().c3
  {
  }

  lemma Shifts()
    ensures ShiftRows(Substituted()) == Shifted()
  {
    hide Unpack;
  }

  lemma AddsKey()
    ensures AddRoundKey(StateOf(INPUT), KeyState()) == Start()
  {
  }

  lemma AddsNextKey()
    ensures AddRoundKey(Mixed(), NextKeyState()) == End()
  {
  }

  lemma KeyTemp()
    ensures Temp(KeyState().c3, 4, 4) == Col(Unpack(0x8b), Unpack(0x84), Unpack(0xeb), Unpack(0x01))
  {
  }

  lemma NextKeyWords()
    ensures AddWord(KeyState().c0, Col(Unpack(0x8b), Unpack(0x84), Unpack(0xeb), Unpack(0x01))) == NextKeyState().c0
    ensures AddWord(KeyState().c1, NextKeyState().c0) == NextKeyState().c1
    ensures AddWord(KeyState().c2, NextKeyState().c1) == NextKeyState().c2
    ensures AddWord(KeyState().c3, NextKeyState().c2) == NextKeyState().c3
  {
  }

  lemma Expands()
    ensures RoundKey(KeyColumns(KEY), 0) == KeyState() && RoundKey(KeyColumns(KEY), 1) == NextKeyState()
  {
    hide Unpack; hide AddWord; hide SubWord;
    var c := KeyColumns(KEY);
    assert c[0] == KeyState().c0 && c[1] == KeyState().c1 && c[2] == KeyState().c2 && c[3] == KeyState().c3;
    KeyTemp();
    NextKeyWords();
    assert Temp(c[3], 4, 4) == Temp(KeyState().c3, 4, 4);
    assert KeyWord(c, 4) == AddWord(c[0], Temp(c[3], 4, 4));
    assert KeyWord(c, 5) == AddWord(c[1], KeyWord(c, 4));
    assert KeyWord(c, 6) == AddWord(c[2], KeyWord(c, 5));
    assert KeyWord(c, 7) == AddWord(c[3], KeyWord(c, 6));
  }

  /** The state after the first round. */
  lemma FirstRound()
    ensures Rounds(ExpandedKey(KEY), StateOf(INPUT), 1) == End()
  {
    hide Unpack; hide AddRoundKey; hide ShiftRows; hide SubWord; hide MixColumn; hide RoundKey; hide StateOf;
    var keys := ExpandedKey(KEY);
    Expands();
    assert keys[0] == KeyState() && keys[1] == NextKeyState();
    AddsKey();
    Substitutes0(); Substitutes1(); Substitutes2(); Substitutes3();
    assert SubBytes(Start()) == Substituted();
    Shifts();
    Mixes0(); Mixes1(); Mixes2(); Mixes3();
    assert MixColumns(Shifted()) == Mixed();
    AddsNextKey();
    assert Rounds(keys, StateOf(INPUT), 0) == Start();
  }

  function At(s: State, r: nat, c: nat): Byte
    requires r < 4 && c < 4
  {
    var w := if c == 0 then s.c0 else if c == 1 then s.c1 else if c == 2 then s.c2 else s.c3;
    if r == 0 then w.r0 else if r == 1 then w.r1 else if r == 2 then w.r2 else w.r3
  }

  /** Row r moves left by r columns: equation 5.3. */
  lemma RowsShift(s: State, r: nat, c: nat)
    requires r < 4 && c < 4
    ensures At(ShiftRows(s), r, c) == At(s, r, (c + r) % 4)
  {
  }
}
