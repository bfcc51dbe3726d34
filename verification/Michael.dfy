/** The message integrity code of TKIP: section 8.3.2.3 of IEEE 802.11-2007. */
module Michael {
  import opened Blocks
  import opened Ccm
  import opened AesKey
  import H = Ccmp

  type Pair = (bv32, bv32)

  function Rotl(w: bv32, n: bv32): bv32 { (w << (n & 31)) | (w >> ((32 - n) & 31)) }

  function Rotr(w: bv32, n: bv32): bv32 { (w >> (n & 31)) | (w << ((32 - n) & 31)) }

  function XSwap(w: bv32): bv32 { ((w & 0x00ff00ff) << 8) | ((w & 0xff00ff00) >> 8) }

  function Plus(a: bv32, b: bv32): bv32 { a + b }

  function Xor32(a: bv32, b: bv32): bv32 { a ^ b }

  /** The block function, on the left half after the word was mixed in. */
  function Block(l0: bv32, r0: bv32): Pair {
    var r1 := Xor32(r0, Rotl(l0, 17));
    var l1 := Plus(l0, r1);
    var r2 := Xor32(r1, XSwap(l1));
    var l2 := Plus(l1, r2);
    var r3 := Xor32(r2, Rotl(l2, 3));
    var l3 := Plus(l2, r3);
    var r4 := Xor32(r3, Rotr(l3, 2));
    (Plus(l3, r4), r4)
  }

  function Mix(lr: Pair, w: bv32): Pair { Block(Xor32(lr.0, w), lr.1) }

  function Word(s: seq<byte>): bv32
    requires |s| == 4
  {
    Le32(s[0], s[1], s[2], s[3])
  }

  /** Successive words mixed in. */
  function Words(lr: Pair, data: seq<byte>): Pair
    requires |data| % 4 == 0
  {
    if data == [] then lr
    else Mix(Words(lr, data[..|data| - 4]), Word(data[|data| - 4..]))
  }

  /** 0x5a, then zeros: at least four, up to a whole number of words. */
  function Padded(data: seq<byte>): (p: seq<byte>)
    ensures |p| % 4 == 0
  {
    data + [0x5a] + Zeros(7 - |data| % 4)
  }

  function KeyOf(key: seq<byte>): Pair
    requires |key| == 8
  {
    (Word(key[..4]), Word(key[4..]))
  }

  function Mic(key: seq<byte>, hdr: seq<byte>, data: seq<byte>): (m: seq<byte>)
    requires |key| == 8 && |hdr| == 16
    ensures |m| == 8
  {
    var lr := Words(Words(KeyOf(key), hdr), Padded(data));
    WordBytes(lr.0) + WordBytes(lr.1)
  }

  // ---------------------------------------------------------------------------
  // What the code tells apart

  function Minus(a: bv32, b: bv32): bv32 { a - b }

  lemma MinusOfSum(a: bv32, b: bv32)
    ensures Minus(a + b, b) == a
  {
  }

  lemma MinusUndoesPlus(a: bv32, b: bv32)
    ensures Minus(Plus(a, b), b) == a
  {
    hide Minus;
    MinusOfSum(a, b);
  }

  lemma XorCancels(a: bv32, b: bv32, c: bv32)
    ensures Xor32(a, c) == Xor32(b, c) <==> a == b
    ensures Xor32(c, a) == Xor32(c, b) <==> a == b
  {
  }

  function Right2(w: bv32): bv32 { (w >> 2) | (w << 30) }

  function Left3(w: bv32): bv32 { (w << 3) | (w >> 29) }

  function Left17(w: bv32): bv32 { (w << 17) | (w >> 15) }

  /** The bytes of each half exchanged. */
  function Swapped(w: bv32): bv32 {
    ((w >> 8) & 0xff) | ((w & 0xff) << 8) | (((w >> 24) & 0xff) << 16) | (((w >> 16) & 0xff) << 24)
  }

  /** The steps of the block function undone, last one first. */
  function UnBlock(l: bv32, r: bv32): Pair {
    var l3 := Minus(l, r);
    var r3 := Xor32(r, Right2(l3));
    var l2 := Minus(l3, r3);
    var r2 := Xor32(r3, Left3(l2));
    var l1 := Minus(l2, r2);
    var r1 := Xor32(r2, Swapped(l1));
    var l0 := Minus(l1, r1);
    (l0, Xor32(r1, Left17(l0)))
  }

  lemma SameMoves(w: bv32)
    ensures Rotr(w, 2) == Right2(w) && Rotl(w, 3) == Left3(w) && Rotl(w, 17) == Left17(w) && XSwap(w) == Swapped(w)
  {
  }

  lemma PlusUndoesMinus(a: bv32, b: bv32)
    ensures Plus(Minus(a, b), b) == a
  {
    hide Plus;
    PlusOfDifference(a, b);
  }

  lemma PlusOfDifference(a: bv32, b: bv32)
    ensures Plus(a - b, b) == a
  {
  }

  lemma XorUndone(a: bv32, b: bv32)
    ensures Xor32(Xor32(a, b), b) == a
  {
  }

  /** The block function has an inverse, which takes its steps back one by one. */
  lemma UnBlockUndoesBlock(l0: bv32, r0: bv32)
    ensures var b := Block(l0, r0); UnBlock(b.0, b.1) == (l0, r0)
  {
    hide Rotl; hide Rotr; hide XSwap; hide Plus; hide Minus; hide Xor32; hide Right2; hide Left3; hide Left17;
    hide Swapped;
    var r1 := Xor32(r0, Rotl(l0, 17));
    var l1 := Plus(l0, r1);
    var r2 := Xor32(r1, XSwap(l1));
    var l2 := Plus(l1, r2);
    var r3 := Xor32(r2, Rotl(l2, 3));
    var l3 := Plus(l2, r3);
    SameMoves(l0); SameMoves(l1); SameMoves(l2); SameMoves(l3);
    MinusUndoesPlus(l3, Xor32(r3, Rotr(l3, 2)));
    XorUndone(r3, Rotr(l3, 2));
    MinusUndoesPlus(l2, r3);
    XorUndone(r2, Rotl(l2, 3));
    MinusUndoesPlus(l1, r2);
    XorUndone(r1, XSwap(l1));
    MinusUndoesPlus(l0, r1);
    XorUndone(r0, Rotl(l0, 17));
  }

  lemma BlockUndoesUnBlock(l: bv32, r: bv32)
    ensures var u := UnBlock(l, r); Block(u.0, u.1) == (l, r)
  {
    hide Rotl; hide Rotr; hide XSwap; hide Plus; hide Minus; hide Xor32; hide Right2; hide Left3; hide Left17;
    hide Swapped;
    var l3 := Minus(l, r);
    var r3 := Xor32(r, Right2(l3));
    var l2 := Minus(l3, r3);
    var r2 := Xor32(r3, Left3(l2));
    var l1 := Minus(l2, r2);
    var r1 := Xor32(r2, Swapped(l1));
    var l0 := Minus(l1, r1);
    SameMoves(l0); SameMoves(l1); SameMoves(l2); SameMoves(l3);
    XorUndone(r1, Left17(l0));
    PlusUndoesMinus(l1, r1);
    XorUndone(r2, Swapped(l1));
    PlusUndoesMinus(l2, r2);
    XorUndone(r3, Left3(l2));
    PlusUndoesMinus(l3, r3);
    XorUndone(r, Right2(l3));
    PlusUndoesMinus(l, r);
  }

  /** The block function keeps states apart. */
  lemma BlockInjective(l0: bv32, r0: bv32, m0: bv32, q0: bv32)
    ensures Block(l0, r0) == Block(m0, q0) <==> (l0, r0) == (m0, q0)
  {
    hide Block; hide UnBlock;
    UnBlockUndoesBlock(l0, r0);
    UnBlockUndoesBlock(m0, q0);
  }

  lemma MixInjective(a: Pair, v: bv32, b: Pair, w: bv32)
    ensures v == w ==> (Mix(a, v) == Mix(b, w) <==> a == b)
    ensures a == b ==> (Mix(a, v) == Mix(b, w) <==> v == w)
  {
    hide Block; hide Xor32;
    BlockInjective(Xor32(a.0, v), a.1, Xor32(b.0, w), b.1);
    XorCancels(a.0, b.0, v);
    XorCancels(v, w, a.0);
  }

  /** The same data after two states: the results are the same only if the states were. */
  lemma {:induction false} WordsInjective(a: Pair, b: Pair, data: seq<byte>)
    requires |data| % 4 == 0
    ensures Words(a, data) == Words(b, data) <==> a == b
  {
    hide Mix; hide Word;
    if data != [] {
      var d, w := data[..|data| - 4], Word(data[|data| - 4..]);
      WordsInjective(a, b, d);
      MixInjective(Words(a, d), w, Words(b, d), w);
    }
  }

  lemma WordBytesInjective(a: bv32, b: bv32)
    ensures WordBytes(a) == WordBytes(b) <==> a == b
  {
    if WordBytes(a) == WordBytes(b) {
      var s, t := WordBytes(a), WordBytes(b);
      assert s[0] == t[0] && s[1] == t[1] && s[2] == t[2] && s[3] == t[3];
      BytesOfWord(a);
      BytesOfWord(b);
    }
  }

  lemma BytesOfWord(a: bv32)
    ensures Le32(Le32Byte(a, 0), Le32Byte(a, 1), Le32Byte(a, 2), Le32Byte(a, 3)) == a
  {
  }

  lemma WordInjective(s: seq<byte>, t: seq<byte>)
    requires |s| == 4 && |t| == 4
    ensures Word(s) == Word(t) <==> s == t
  {
    hide Le32; hide Le32Byte;
    Le32ByteOfDec(s[0], s[1], s[2], s[3]);
    Le32ByteOfDec(t[0], t[1], t[2], t[3]);
  }

  /** Pseudo headers with the same addresses give the same code, for any data under any key, if and only if they have
      the same last word. */
  lemma MicExactly(key: seq<byte>, h: seq<byte>, g: seq<byte>, data: seq<byte>)
    requires |key| == 8 && |h| == 16 && |g| == 16 && h[..12] == g[..12]
    ensures Mic(key, h, data) == Mic(key, g, data) <==> h == g
  {
    hide Mix; hide Word; hide WordBytes; hide Words; hide Padded;
    var k, d := KeyOf(key), Padded(data);
    var a, b := Words(k, h), Words(k, g);
    var x, y := Words(a, d), Words(b, d);
    WordsInjective(a, b, d);
    LastWord(k, h);
    LastWord(k, g);
    MixInjective(Words(k, h[..12]), Word(h[12..]), Words(k, g[..12]), Word(g[12..]));
    WordInjective(h[12..], g[12..]);
    assert h == h[..12] + h[12..] && g == g[..12] + g[12..];
    WordBytesInjective(x.0, y.0);
    WordBytesInjective(x.1, y.1);
    assert Mic(key, h, data)[..4] == WordBytes(x.0) && Mic(key, h, data)[4..] == WordBytes(x.1);
    assert Mic(key, g, data)[..4] == WordBytes(y.0) && Mic(key, g, data)[4..] == WordBytes(y.1);
  }

  lemma LastWord(k: Pair, h: seq<byte>)
    requires |h| == 16
    ensures Words(k, h) == Mix(Words(k, h[..12]), Word(h[12..]))
  {
    hide Mix; hide Word;
  }

  // ---------------------------------------------------------------------------
  // The code of a message

  /** Michael over a message, as section 8.3.2.3 of IEEE 802.11-2007 defines it. */
  function Code(key: seq<byte>, data: seq<byte>): (m: seq<byte>)
    requires |key| == 8
    ensures |m| == 8
  {
    var lr := Words(KeyOf(key), Padded(data));
    WordBytes(lr.0) + WordBytes(lr.1)
  }

  lemma Fours(a: nat, b: nat)
    requires a % 4 == 0 && b % 4 == 0
    ensures (a + b) % 4 == 0 && (b >= 4 ==> (b - 4) % 4 == 0) && (b > 0 ==> b >= 4)
  {
  }

  lemma {:induction false} WordsConcat(lr: Pair, a: seq<byte>, b: seq<byte>)
    requires |a| % 4 == 0 && |b| % 4 == 0
    ensures |a + b| % 4 == 0 && Words(lr, a + b) == Words(Words(lr, a), b)
  {
    hide Mix; hide Word; hide Words;
    Fours(|a|, |b|);
    var c := a + b;
    if b == [] {
      assert c == a;
      NoWords(Words(lr, a));
    } else {
      var n := |b| - 4;
      Fours(|a|, n);
      WordsConcat(lr, a, b[..n]);
      assert c[..|a| + n] == a + b[..n] && c[|a| + n..|a| + n + 4] == b[n..n + 4];
      assert c[..|a| + n + 4] == c && b[..n + 4] == b;
      OneWord(lr, c, |a| + n);
      OneWord(Words(lr, a), b, n);
    }
  }

  /** The MIC of a frame is the code of pseudo header and data in one. */
  lemma MicIsCode(key: seq<byte>, hdr: seq<byte>, data: seq<byte>)
    requires |key| == 8 && |hdr| == 16
    ensures Mic(key, hdr, data) == Code(key, hdr + data)
  {
    hide Mix; hide Word; hide Words; hide WordBytes; hide KeyOf;
    assert Padded(hdr + data) == hdr + Padded(data);
    WordsConcat(KeyOf(key), hdr, Padded(data));
  }

  lemma OneWord(lr: Pair, d: seq<byte>, n: nat)
    requires n % 4 == 0 && n + 4 <= |d|
    ensures Words(lr, d[..n + 4]) == Mix(Words(lr, d[..n]), Word(d[n..n + 4]))
  {
    hide Mix; hide Word;
    var e := d[..n + 4];
    assert e[..|e| - 4] == d[..n] && e[|e| - 4..] == d[n..n + 4];
  }

  lemma NothingSteps()
    ensures Word([0x5a, 0, 0, 0]) == 0x5a && Word([0, 0, 0, 0]) == 0
    ensures Mix((0, 0), 0x5a) == (0xc000_134d, 0xeaa1_301e)
    ensures Mix((0xc000_134d, 0xeaa1_301e), 0) == (0x1c5c_9282, 0xb830_d1a1)
    ensures WordBytes(0x1c5c_9282) == [0x82, 0x92, 0x5c, 0x1c] && WordBytes(0xb830_d1a1) == [0xa1, 0xd1, 0x30, 0xb8]
  {
  }

  /** The first test vector of the standard: no data under a key of zeros. */
  lemma CodeOfNothing()
    ensures Code([0, 0, 0, 0, 0, 0, 0, 0], []) == [0x82, 0x92, 0x5c, 0x1c, 0xa1, 0xd1, 0x30, 0xb8]
  {
    hide Words; hide Mix; hide Word; hide WordBytes;
    var k: seq<byte>, d: seq<byte> := [0, 0, 0, 0, 0, 0, 0, 0], [0x5a, 0, 0, 0, 0, 0, 0, 0];
    NothingSteps();
    assert Padded([]) == d && d[..0] == [] && d[..8] == d && k[..4] == [0, 0, 0, 0] == k[4..];
    assert d[0..4] == [0x5a, 0, 0, 0] && d[4..8] == [0, 0, 0, 0];
    NoWords((0, 0));
    OneWord((0, 0), d, 0);
    OneWord((0, 0), d, 4);
  }

  lemma NoWords(lr: Pair)
    ensures Words(lr, []) == lr
  {
  }

  lemma MichaelSteps()
    ensures Word([0xd5, 0x5e, 0x10, 0x05]) == 0x0510_5ed5 && Word([0x10, 0x12, 0x89, 0x86]) == 0x8689_1210
    ensures Word([0x4d, 0x69, 0x63, 0x68]) == 0x6863_694d && Word([0x61, 0x65, 0x6c, 0x5a]) == 0x5a6c_6561
    ensures Mix((0x0510_5ed5, 0x8689_1210), 0x6863_694d) == (0xf477_4c9a, 0xb427_8a40)
    ensures Mix((0xf477_4c9a, 0xb427_8a40), 0x5a6c_6561) == (0x4e30_4879, 0xaa36_0847)
    ensures Mix((0x4e30_4879, 0xaa36_0847), 0) == (0x122b_940a, 0x46a5_ca4e) && Word([0, 0, 0, 0]) == 0
    ensures WordBytes(0x122b_940a) == [0x0a, 0x94, 0x2b, 0x12] && WordBytes(0x46a5_ca4e) == [0x4e, 0xca, 0xa5, 0x46]
  {
  }

  /** A later one: the word "Michael" under the code of the vector before it. */
  lemma CodeOfMichael()
    ensures Code([0xd5, 0x5e, 0x10, 0x05, 0x10, 0x12, 0x89, 0x86], [0x4d, 0x69, 0x63, 0x68, 0x61, 0x65, 0x6c])
         == [0x0a, 0x94, 0x2b, 0x12, 0x4e, 0xca, 0xa5, 0x46]
  {
    hide Words; hide Mix; hide Word; hide WordBytes;
    var k: seq<byte> := [0xd5, 0x5e, 0x10, 0x05, 0x10, 0x12, 0x89, 0x86];
    var m: seq<byte> := [0x4d, 0x69, 0x63, 0x68, 0x61, 0x65, 0x6c];
    var d: seq<byte> := [0x4d, 0x69, 0x63, 0x68, 0x61, 0x65, 0x6c, 0x5a, 0, 0, 0, 0];
    MichaelSteps();
    assert k[..4] == [0xd5, 0x5e, 0x10, 0x05] && k[4..] == [0x10, 0x12, 0x89, 0x86] && Padded(m) == d;
    assert d[0..4] == [0x4d, 0x69, 0x63, 0x68] && d[4..8] == [0x61, 0x65, 0x6c, 0x5a] && d[8..12] == [0, 0, 0, 0];
    assert d[..0] == [] && d[..12] == d;
    var lr := KeyOf(k);
    NoWords(lr);
    OneWord(lr, d, 0);
    OneWord(lr, d, 4);
    OneWord(lr, d, 8);
  }

  lemma BlockAtOne()
    ensures Block(0, 1) == (0xc000_15a8, 0xc000_0b95)
  {
  }

  // ---------------------------------------------------------------------------
  // What the spill buffer stands for

  function Rest(data: seq<byte>): nat { |data| - |data| % 4 }

  /** lr and spill after data, when lr0 was the start. */
  ghost predicate Held(lr0: Pair, data: seq<byte>, lr: Pair, spill: seq<byte>) {
    lr == Words(lr0, data[..Rest(data)]) && spill == data[Rest(data)..]
  }

  lemma HeldNone(lr0: Pair)
    ensures Held(lr0, [], lr0, [])
  {
  }

  lemma HeldGrows(lr0: Pair, data: seq<byte>, lr: Pair, spill: seq<byte>, x: seq<byte>)
    requires Held(lr0, data, lr, spill) && |spill| + |x| < 4
    ensures Held(lr0, data + x, lr, spill + x)
  {
    hide Words;
    assert Rest(data + x) == Rest(data);
    assert (data + x)[..Rest(data)] == data[..Rest(data)];
  }

  lemma HeldFills(lr0: Pair, data: seq<byte>, lr: Pair, spill: seq<byte>, x: seq<byte>)
    requires Held(lr0, data, lr, spill) && |spill| + |x| == 4
    ensures Held(lr0, data + x, Mix(lr, Word(spill + x)), [])
  {
    hide Mix; hide Word;
    var whole := data + x;
    assert Rest(whole) == |whole| == Rest(data) + 4;
    assert whole[..Rest(whole)] == whole;
    assert whole[..|whole| - 4] == data[..Rest(data)] && whole[|whole| - 4..] == spill + x;
  }

  /** The padding: one block with the marker, one of zeros. */
  lemma HeldPadded(lr0: Pair, data: seq<byte>, lr: Pair, spill: seq<byte>)
    requires Held(lr0, data, lr, spill) && |spill| < 4
    ensures Mix(Mix(lr, Word(spill + [0x5a] + Zeros(3 - |spill|))), 0) == Words(lr0, Padded(data))
  {
    hide Mix; hide Word;
    var x, z := [0x5a] + Zeros(3 - |spill|), Zeros(4);
    assert spill + [0x5a] + Zeros(3 - |spill|) == spill + x;
    HeldFills(lr0, data, lr, spill, x);
    HeldFills(lr0, data + x, Mix(lr, Word(spill + x)), [], z);
    PaddedIs(data, |spill|);
    ZeroWord();
  }

  lemma PaddedIs(data: seq<byte>, n: nat)
    requires n == |data| % 4
    ensures data + ([0x5a] + Zeros(3 - n)) + Zeros(4) == Padded(data) && [] + Zeros(4) == Zeros(4)
    ensures Padded(data)[..Rest(Padded(data))] == Padded(data)
  {
  }

  lemma ZeroWord()
    ensures Word(Zeros(4)) == 0
  {
  }

  // ---------------------------------------------------------------------------
  // The pseudo header

  /** DA, SA, priority and three zeros, as section 8.3.2.3 of IEEE 802.11-2007 lays them out. */
  function PseudoHeader(h: seq<byte>): (p: seq<byte>)
    requires H.Header(h)
    ensures |p| == 16
  {
    Addresses(h) + [H.Priority(h), 0, 0, 0]
  }

  function Addresses(h: seq<byte>): (a: seq<byte>)
    requires H.Header(h)
    ensures |a| == 12
  {
    var dir := h[1] & 0x03;
    if dir == 0 then h[4..10] + h[10..16]
    else if dir == 1 then h[16..22] + h[10..16]
    else if dir == 2 then h[4..10] + h[16..22]
    else AddressesWds(h)
  }

  function AddressesWds(h: seq<byte>): (a: seq<byte>)
    requires H.Header(h) && h[1] & 0x03 != 0 && h[1] & 0x03 != 1 && h[1] & 0x03 != 2
    ensures |a| == 12
  {
    assert H.FourAddress(h) by { DirCases(h[1]); }
    h[16..22] + h[24..30]
  }

  lemma DirCases(b: byte)
    ensures b & 0x03 == 0 || b & 0x03 == 1 || b & 0x03 == 2 || b & 0x03 == 3
  {
  }

  /** Destination and source by the two distribution system bits of the frame control field: the destination is
      address 3 towards the system and address 1 otherwise; the source is address 2 unless the frame comes from the
      system, and then address 3, or address 4 if it goes on to the system. */
  lemma AddressesAre(h: seq<byte>)
    requires H.Header(h)
    ensures var toDs, fromDs := h[1] & 0x01 != 0, h[1] & 0x02 != 0;
            && (toDs && fromDs ==> |h| >= 30)
            && Addresses(h) == (if toDs then h[16..22] else h[4..10])
                             + (if !fromDs then h[10..16] else if !toDs then h[16..22] else h[24..30])
  {
    DirBits(h[1]);
  }

  lemma DirBits(b: byte)
    ensures b & 0x03 == 0 <==> b & 0x01 == 0 && b & 0x02 == 0
    ensures b & 0x03 == 1 <==> b & 0x01 != 0 && b & 0x02 == 0
    ensures b & 0x03 == 2 <==> b & 0x01 == 0 && b & 0x02 != 0
    ensures b & 0x03 == 3 <==> b & 0x01 != 0 && b & 0x02 != 0
  {
  }

  /** michael_mic_hdr: the priority comes from the third address position whatever the number of addresses. */
  function CodeHeader(h: seq<byte>): (p: seq<byte>)
    requires H.Header(h) && (h[0] & 0x80 != 0 ==> |h| > 24)
    ensures |p| == 16
  {
    Addresses(h) + [if h[0] & 0x80 != 0 then h[24] & 0x0f else 0, 0, 0, 0]
  }

  lemma QosBit(b: byte)
    requires b & 0x0c == 0x08
    ensures b & 0x8c == 0x88 <==> b & 0x80 != 0
  {
  }

  /** On data frames the code agrees with the standard exactly when the frame is not a four-address QoS
      frame whose fourth address starts with another nibble than its priority. */
  lemma HeaderIsStandard(h: seq<byte>)
    requires H.Header(h) && h[0] & 0x0c == 0x08 && (h[0] & 0x80 != 0 ==> |h| > 24)
    ensures CodeHeader(h) == PseudoHeader(h)
      <==> !(H.HasQos(h) && H.FourAddress(h)) || h[24] & 0x0f == h[30] & 0x0f
  {
    hide Addresses;
    QosBit(h[0]);
    assert CodeHeader(h)[12] == (if h[0] & 0x80 != 0 then h[24] & 0x0f else 0);
    assert PseudoHeader(h)[12] == H.Priority(h);
  }

  /** A four-address QoS frame of priority 0 on which the two differ. */
  lemma HeaderIsNotAlwaysStandard()
    ensures var h := [0x88, 0x03] + Zeros(22) + [1] + Zeros(7);
            H.Header(h) && CodeHeader(h) != PseudoHeader(h)
  {
    var h := [0x88, 0x03] + Zeros(22) + [1] + Zeros(7);
    assert h[0] == 0x88 && h[1] == 0x03 && h[24] == 1 && h[30] == 0;
    HeaderIsStandard(h);
  }
}
