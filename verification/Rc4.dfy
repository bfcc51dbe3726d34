/** RC4 with the CRC-32 integrity value of WEP: what the loops of WEP and TKIP compute. */
module Rc4 {
  import opened Blocks
  import opened Ccm
  import opened LittleEndian

  // ---------------------------------------------------------------------------
  // The state: a permutation of the 256 byte values and two indices

  datatype State = State(s: seq<byte>, i: nat, j: nat)

  predicate Ok(st: State) { |st.s| == 256 && st.i < 256 && st.j < 256 }

  function Identity(): (s: seq<byte>)
    ensures |s| == 256
  {
    seq(256, i requires 0 <= i < 256 => Byte(i))
  }

  /** Each of 0 .. 255 occurs exactly once. */
  ghost predicate Permutation(s: seq<byte>) {
    |s| == 256 && multiset(s) == multiset(Identity())
  }

  function Swap(s: seq<byte>, a: nat, b: nat): (t: seq<byte>)
    requires a < |s| && b < |s|
    ensures |t| == |s|
  {
    s[a := s[b]][b := s[a]]
  }

  lemma SwapPermutes(s: seq<byte>, a: nat, b: nat)
    requires a < |s| && b < |s|
    ensures multiset(Swap(s, a, b)) == multiset(s)
  {
  }

  // ---------------------------------------------------------------------------
  // Key setup

  /** The state after n steps of key setup. */
  function Setup(key: seq<byte>, n: nat): (r: (seq<byte>, nat))
    requires key != [] && n <= 256
    ensures |r.0| == 256 && r.1 < 256
  {
    if n == 0 then (Identity(), 0)
    else
      var (s, j) := Setup(key, n - 1);
      var j' := (j + Value(s[n - 1]) + Value(key[(n - 1) % |key|])) % 256;
      (Swap(s, n - 1, j'), j')
  }

  function Init(key: seq<byte>): (st: State)
    requires key != []
    ensures Ok(st)
  {
    State(Setup(key, 256).0, 0, 0)
  }

  lemma {:induction false} SetupPermutes(key: seq<byte>, n: nat)
    requires key != [] && n <= 256
    ensures Permutation(Setup(key, n).0)
  {
    hide Identity; hide Swap;
    if n > 0 {
      SetupPermutes(key, n - 1);
      var (s, j) := Setup(key, n - 1);
      SwapPermutes(s, n - 1, (j + Value(s[n - 1]) + Value(key[(n - 1) % |key|])) % 256);
    }
  }

  /** What went into j through n steps: the state byte and the key byte of each. */
  ghost function Drawn(key: seq<byte>, n: nat): nat
    requires key != [] && n <= 256
  {
    if n == 0 then 0
    else Drawn(key, n - 1) + Value(Setup(key, n - 1).0[n - 1]) + Value(key[(n - 1) % |key|])
  }

  /** Index j is the sum of the state bytes met and of the key bytes, the key starting over when it is used up. */
  lemma {:induction false} SetupSums(key: seq<byte>, n: nat)
    requires key != [] && n <= 256
    ensures Setup(key, n).1 == Drawn(key, n) % 256
  {
    hide Setup; hide Value; hide Drawn;
    NoSteps(key);
    if n > 0 {
      SetupSums(key, n - 1);
      NextSetup(key, n - 1);
      NextDrawn(key, n - 1);
      SumStep(Setup(key, n - 1).1, Drawn(key, n - 1), Value(Setup(key, n - 1).0[n - 1]), Value(key[(n - 1) % |key|]),
              Setup(key, n).1);
    }
  }

  lemma NoSteps(key: seq<byte>)
    requires key != []
    ensures Setup(key, 0) == (Identity(), 0) && Drawn(key, 0) == 0
  {
  }

  lemma NextDrawn(key: seq<byte>, n: nat)
    requires key != [] && n < 256
    ensures Drawn(key, n + 1) == Drawn(key, n) + Value(Setup(key, n).0[n]) + Value(key[n % |key|])
  {
    hide Setup; hide Value;
  }

  /** A sum kept modulo 256. */
  lemma SumStep(j: nat, d: nat, x: nat, y: nat, j': nat)
    requires j == d % 256 && j' == (j + x + y) % 256
    ensures j' == (d + x + y) % 256
  {
  }

  /** Positions a and b exchanged, and nothing else. */
  lemma SwapExchanges(s: seq<byte>, a: nat, b: nat, k: nat)
    requires a < |s| && b < |s| && k < |s|
    ensures Swap(s, a, b)[k] == s[if k == a then b else if k == b then a else k]
  {
  }

  /** Step n exchanges position n with the new j. */
  lemma SetupExchanges(key: seq<byte>, n: nat, k: nat)
    requires key != [] && n < 256 && k < 256
    ensures var (s, t) := (Setup(key, n).0, Setup(key, n + 1));
            t.0[k] == s[if k == n then t.1 else if k == t.1 then n else k]
    ensures Setup(key, 0).0[k] == Byte(k)
  {
    hide Swap; hide Value; hide Byte;
    var t := Setup(key, n + 1);
    SwapExchanges(Setup(key, n).0, n, t.1, k);
  }

  /** The key matters as far as it was used. */
  lemma {:induction false} SetupAgrees(a: seq<byte>, b: seq<byte>, n: nat)
    requires a != [] && b != [] && n <= 256 && forall i :: 0 <= i < n ==> a[i % |a|] == b[i % |b|]
    ensures Setup(a, n) == Setup(b, n)
  {
    hide Setup; hide Swap; hide Value;
    if n == 0 {
      NoSteps(a);
      NoSteps(b);
    } else {
      SetupAgrees(a, b, n - 1);
      NextSetup(a, n - 1);
      NextSetup(b, n - 1);
    }
  }

  lemma NextSetup(key: seq<byte>, n: nat)
    requires key != [] && n < 256
    ensures Setup(key, n + 1).0 == Swap(Setup(key, n).0, n, Setup(key, n + 1).1)
    ensures Setup(key, n + 1).1 == (Setup(key, n).1 + Value(Setup(key, n).0[n]) + Value(key[n % |key|])) % 256
  {
    hide Swap; hide Identity; hide Value;
  }

  lemma ModKeepsDifference(a: nat, b: nat, c: nat)
    requires a < 256 && b < 256 && a != b
    ensures (c + a) % 256 != (c + b) % 256
  {
  }

  lemma SmallMod(i: nat, m: nat)
    requires i < m
    ensures i % m == i
  {
  }

  /** Two keys that agree before position i and differ there: the states are equal before it and differ behind it. */
  lemma KeyByteEnters(a: seq<byte>, b: seq<byte>, i: nat)
    requires i < |a| == |b| && i < 256 && a[..i] == b[..i] && a[i] != b[i]
    ensures Setup(a, i) == Setup(b, i) && Setup(a, i + 1).1 != Setup(b, i + 1).1
  {
    hide Swap; hide Identity; hide Value; hide Setup;
    forall k | 0 <= k < i ensures a[k % |a|] == b[k % |b|] {
      SmallMod(k, |a|);
      assert a[k] == a[..i][k] && b[k] == b[..i][k];
    }
    SetupAgrees(a, b, i);
    NextSetup(a, i);
    NextSetup(b, i);
    SmallMod(i, |a|);
    ValueInjective(a[i], b[i]);
    ModKeepsDifference(Value(a[i]), Value(b[i]), Setup(a, i).1 + Value(Setup(a, i).0[i]));
  }

  lemma ModTwice(i: nat, m: nat)
    requires m > 0
    ensures i % (m + m) % m == i % m
  {
    var q, r := i / (m + m), i % (m + m);
    assert i == (m + m) * q + r == m * (2 * q) + r;
    if r < m {
      DivModUnique(i, m, 2 * q, r);
      SmallMod(r, m);
    } else {
      assert i == m * (2 * q + 1) + (r - m);
      DivModUnique(i, m, 2 * q + 1, r - m);
      DivModUnique(r, m, 1, r - m);
    }
  }

  /** A key and the key said twice are the same key. */
  lemma KeyRepeats(key: seq<byte>, n: nat)
    requires key != [] && n <= 256
    ensures Setup(key + key, n) == Setup(key, n)
  {
    hide Setup;
    forall i | 0 <= i < n ensures (key + key)[i % |key + key|] == key[i % |key|] {
      ModTwice(i, |key|);
      var r := i % |key + key|;
      if r < |key| {
        SmallMod(r, |key|);
      } else {
        DivModUnique(r, |key|, 1, r - |key|);
      }
    }
    SetupAgrees(key + key, key, n);
  }

  // ---------------------------------------------------------------------------
  // The key stream

  function Step(st: State): (t: State)
    requires Ok(st)
    ensures Ok(t)
  {
    var i := (st.i + 1) % 256;
    var j := (st.j + Value(st.s[i])) % 256;
    State(Swap(st.s, i, j), i, j)
  }

  /** The byte the state yields after a step. */
  function Output(st: State): byte
    requires Ok(st)
  {
    st.s[(Value(st.s[st.i]) + Value(st.s[st.j])) % 256]
  }

  function Steps(st: State, n: nat): (t: State)
    requires Ok(st)
    ensures Ok(t)
  {
    if n == 0 then st else Step(Steps(st, n - 1))
  }

  /** The state after n bytes of key stream. */
  function After(st: State, n: nat): (t: State)
    requires Ok(st)
    ensures Ok(t)
  {
    Steps(st, n)
  }

  /** Byte k of the key stream that starts at st. */
  function KeyByte(st: State, k: nat): byte
    requires Ok(st)
  {
    Output(After(st, k + 1))
  }

  /** Data at position `at` of the key stream that starts at st. */
  function CryptAt(st: State, at: nat, data: seq<byte>): (c: seq<byte>)
    requires Ok(st)
    ensures |c| == |data|
  {
    seq(|data|, k requires 0 <= k < |data| => XorByte(data[k], KeyByte(st, at + k)))
  }

  /** Data under the key stream that starts at st. */
  function Crypt(st: State, data: seq<byte>): (c: seq<byte>)
    requires Ok(st)
    ensures |c| == |data|
  {
    CryptAt(st, 0, data)
  }

  lemma {:induction false} AfterPermutes(st: State, n: nat)
    requires Ok(st) && Permutation(st.s)
    ensures Permutation(After(st, n).s)
  {
    hide Identity; hide Swap;
    if n > 0 {
      AfterPermutes(st, n - 1);
      var t := After(st, n - 1);
      var i := (t.i + 1) % 256;
      SwapPermutes(t.s, i, (t.j + Value(t.s[i])) % 256);
    }
  }

  /** At every point of key setup and of the stream the state holds each byte value exactly once. */
  lemma AlwaysPermutation(key: seq<byte>, n: nat)
    requires key != []
    ensures Permutation(After(Init(key), n).s)
  {
    hide Setup;
    SetupPermutes(key, 256);
    AfterPermutes(Init(key), n);
  }

  lemma {:induction false} AfterAfter(st: State, a: nat, b: nat)
    requires Ok(st)
    ensures After(After(st, a), b) == After(st, a + b)
  {
    hide Step;
    if b > 0 {
      AfterAfter(st, a, b - 1);
    }
  }

  /** What went into j through n steps of the stream. */
  ghost function Met(st: State, n: nat): nat
    requires Ok(st)
  {
    if n == 0 then 0 else Met(st, n - 1) + Value(After(st, n - 1).s[(st.i + n) % 256])
  }

  lemma NotYet(st: State)
    requires Ok(st)
    ensures After(st, 0) == st && Met(st, 0) == 0
  {
  }

  lemma NextMet(st: State, n: nat)
    requires Ok(st)
    ensures Met(st, n + 1) == Met(st, n) + Value(After(st, n).s[(st.i + n + 1) % 256])
  {
    hide After; hide Value;
  }

  lemma NextState(st: State, n: nat)
    requires Ok(st)
    ensures var (t, u) := (After(st, n), After(st, n + 1));
            u.i == (t.i + 1) % 256 && u.j == (t.j + Value(t.s[u.i])) % 256 && u.s == Swap(t.s, u.i, u.j)
  {
    hide Swap; hide Value;
  }

  /** Index i counts the bytes. */
  lemma {:induction false} AfterCounts(st: State, n: nat)
    requires Ok(st)
    ensures After(st, n).i == (st.i + n) % 256
  {
    hide Swap; hide Value; hide After;
    NotYet(st);
    if n > 0 {
      AfterCounts(st, n - 1);
      NextState(st, n - 1);
      SumStep(After(st, n - 1).i, st.i + (n - 1), 1, 0, After(st, n).i);
    }
  }

  /** Index j is the sum of the state bytes at it. */
  lemma {:induction false} AfterSums(st: State, n: nat)
    requires Ok(st)
    ensures After(st, n).j == (st.j + Met(st, n)) % 256
  {
    hide Swap; hide Value; hide After; hide Met;
    NotYet(st);
    if n > 0 {
      AfterSums(st, n - 1);
      AfterCounts(st, n);
      NextState(st, n - 1);
      NextMet(st, n - 1);
      var t := After(st, n - 1);
      SumStep(t.j, st.j + Met(st, n - 1), Value(t.s[After(st, n).i]), 0, After(st, n).j);
    }
  }

  /** Each step exchanges positions i and j, and yields the byte at the sum of the two. */
  lemma AfterExchanges(st: State, n: nat, k: nat)
    requires Ok(st) && k < 256
    ensures var (s, t) := (After(st, n).s, After(st, n + 1));
            && t.s[k] == s[if k == t.i then t.j else if k == t.j then t.i else k]
            && KeyByte(st, n) == t.s[(Value(s[t.j]) + Value(s[t.i])) % 256]
  {
    hide Swap; hide Value;
    var t := After(st, n + 1);
    SwapExchanges(After(st, n).s, t.i, t.j, k);
    SwapExchanges(After(st, n).s, t.i, t.j, t.i);
    SwapExchanges(After(st, n).s, t.i, t.j, t.j);
  }

  lemma KeyByteAfter(st: State, n: nat, k: nat)
    requires Ok(st)
    ensures KeyByte(After(st, n), k) == KeyByte(st, n + k)
  {
    hide After; hide Output;
    AfterAfter(st, n, k + 1);
  }

  lemma CryptAfter(st: State, n: nat, data: seq<byte>)
    requires Ok(st)
    ensures Crypt(After(st, n), data) == CryptAt(st, n, data)
  {
    hide XorByte; hide KeyByte; hide After;
    forall k | 0 <= k < |data| ensures Crypt(After(st, n), data)[k] == CryptAt(st, n, data)[k] {
      KeyByteAfter(st, n, k);
    }
  }

  lemma CryptAtConcat(st: State, at: nat, a: seq<byte>, b: seq<byte>)
    requires Ok(st)
    ensures CryptAt(st, at, a + b) == CryptAt(st, at, a) + CryptAt(st, at + |a|, b)
  {
    hide XorByte; hide KeyByte;
  }

  lemma CryptConcat(st: State, a: seq<byte>, b: seq<byte>)
    requires Ok(st)
    ensures Crypt(st, a + b) == Crypt(st, a) + Crypt(After(st, |a|), b)
  {
    hide CryptAt; hide After;
    CryptAtConcat(st, 0, a, b);
    CryptAfter(st, |a|, b);
  }

  lemma CryptTwice(st: State, data: seq<byte>)
    requires Ok(st)
    ensures Crypt(st, Crypt(st, data)) == data
  {
    hide XorByte; hide KeyByte;
    forall k | 0 <= k < |data| ensures Crypt(st, Crypt(st, data))[k] == data[k] {
      XorByteCancels(data[k], KeyByte(st, k));
    }
  }

  // ---------------------------------------------------------------------------
  // The integrity value, for any table

  type Table = t: seq<bv32> | |t| == 256 witness seq(256, _ => 0)

  function LowByte(w: bv32): bv8 { (w & 0xff) as bv8 }

  function XorWord(a: bv32, b: bv32): bv32 { a ^ b }

  function Down1(w: bv32): bv32 { w >> 1 }

  function Down4(w: bv32): bv32 { w >> 4 }

  function Down8(w: bv32): bv32 { w >> 8 }

  /** One step of the table-driven CRC. */
  function CrcByte(table: Table, crc: bv32, b: byte): bv32 {
    XorWord(table[Value(XorByte(LowByte(crc), b))], Down8(crc))
  }

  function Crc(table: Table, crc: bv32, data: seq<byte>): bv32 {
    if data == [] then crc else CrcByte(table, Crc(table, crc, data[..|data| - 1]), data[|data| - 1])
  }

  /** The complemented CRC, little-endian. */
  function Icv(table: Table, data: seq<byte>): (v: seq<byte>)
    ensures |v| == 4
  {
    WordBytes(!Crc(table, 0xFFFF_FFFF, data))
  }

  // ---------------------------------------------------------------------------
  // The same bit by bit, for a table made from a polynomial

  predicate Odd(w: bv32) { w & 1 == 1 }

  /** One bit of a CRC whose register shifts right. */
  function Shift1(poly: bv32, w: bv32): bv32 { if Odd(w) then XorWord(Down1(w), poly) else Down1(w) }

  function Shift4(poly: bv32, w: bv32): bv32 { Shift1(poly, Shift1(poly, Shift1(poly, Shift1(poly, w)))) }

  function Shift8(poly: bv32, w: bv32): bv32 { Shift4(poly, Shift4(poly, w)) }

  function Wide(b: byte): bv32 { b as bv32 }

  function TableOf(poly: bv32): Table { seq(256, i requires 0 <= i < 256 => Shift8(poly, Wide(Byte(i)))) }

  lemma XorParts(a: bv32, b: bv32)
    ensures Odd(XorWord(a, b)) <==> Odd(a) != Odd(b)
    ensures Down1(XorWord(a, b)) == XorWord(Down1(a), Down1(b))
  {
  }

  lemma XorAssoc(x: bv32, y: bv32, z: bv32)
    ensures XorWord(x, XorWord(y, z)) == XorWord(XorWord(x, y), z)
  {
  }

  lemma XorCommutes(x: bv32, y: bv32)
    ensures XorWord(x, y) == XorWord(y, x)
  {
  }

  lemma XorUndone(x: bv32, y: bv32)
    ensures XorWord(XorWord(x, y), y) == x
  {
  }

  lemma XorMoves(x: bv32, y: bv32, p: bv32)
    ensures XorWord(XorWord(x, p), XorWord(y, p)) == XorWord(x, y)
    ensures XorWord(XorWord(x, p), y) == XorWord(XorWord(x, y), p) == XorWord(x, XorWord(y, p))
  {
    hide XorWord;
    XorAssoc(x, p, y);
    XorAssoc(x, y, p);
    XorCommutes(p, y);
    XorAssoc(XorWord(x, p), y, p);
    XorUndone(XorWord(x, y), p);
  }

  lemma Shift1Linear(poly: bv32, a: bv32, b: bv32)
    ensures Shift1(poly, XorWord(a, b)) == XorWord(Shift1(poly, a), Shift1(poly, b))
  {
    hide Odd; hide Down1; hide XorWord;
    XorParts(a, b);
    XorMoves(Down1(a), Down1(b), poly);
  }

  lemma Shift4Linear(poly: bv32, a: bv32, b: bv32)
    ensures Shift4(poly, XorWord(a, b)) == XorWord(Shift4(poly, a), Shift4(poly, b))
  {
    hide Shift1; hide XorWord;
    Shift1Linear(poly, a, b);
    var a1, b1 := Shift1(poly, a), Shift1(poly, b);
    Shift1Linear(poly, a1, b1);
    var a2, b2 := Shift1(poly, a1), Shift1(poly, b1);
    Shift1Linear(poly, a2, b2);
    Shift1Linear(poly, Shift1(poly, a2), Shift1(poly, b2));
  }

  /** Zeros at the low end only move. */
  lemma Shift4Zeros(poly: bv32, w: bv32)
    requires w & 0xf == 0
    ensures Shift4(poly, w) == Down4(w)
  {
  }

  function Low8(w: bv32): bv32 { w & 0xff }

  function High24(w: bv32): bv32 { w & 0xffff_ff00 }

  lemma Parts(w: bv32)
    ensures XorWord(Low8(w), High24(w)) == w && Down4(Down4(High24(w))) == Down8(w)
    ensures High24(w) & 0xf == 0 && Down4(High24(w)) & 0xf == 0
  {
  }

  lemma Shift8Parts(poly: bv32, w: bv32)
    ensures Shift8(poly, w) == XorWord(Shift8(poly, Low8(w)), Down8(w))
  {
    hide Shift4; hide XorWord; hide Low8; hide High24; hide Down4; hide Down8;
    var lo, hi := Low8(w), High24(w);
    Parts(w);
    Shift4Linear(poly, lo, hi);
    Shift4Zeros(poly, hi);
    Shift4Linear(poly, Shift4(poly, lo), Down4(hi));
    Shift4Zeros(poly, Down4(hi));
  }

  lemma Mixed(crc: bv32, b: byte)
    ensures Low8(XorWord(crc, Wide(b))) == Wide(XorByte(LowByte(crc), b)) && Down8(XorWord(crc, Wide(b))) == Down8(crc)
  {
  }

  /** With the table of a polynomial, one look-up is eight bits of the register. */
  lemma TableDriven(poly: bv32, crc: bv32, b: byte)
    ensures CrcByte(TableOf(poly), crc, b) == Shift8(poly, XorWord(crc, Wide(b)))
  {
    hide Shift8; hide Wide; hide XorByte; hide LowByte; hide XorWord; hide Low8; hide Down8; hide Value; hide Byte;
    Shift8Parts(poly, XorWord(crc, Wide(b)));
    Mixed(crc, b);
    ValueBack(XorByte(LowByte(crc), b));
  }

  // ---------------------------------------------------------------------------
  // What the integrity value tells apart

  function Top(w: bv32): bv32 { w >> 24 }

  /** No two entries share their top byte, as in the table of any CRC of 32 bits. */
  ghost predicate Spread(table: Table) {
    forall i, j :: 0 <= i < j < 256 ==> Top(table[i]) != Top(table[j])
  }

  lemma SpreadInjective(table: Table, i: nat, j: nat)
    requires Spread(table) && i < 256 && j < 256 && Top(table[i]) == Top(table[j])
    ensures i == j
  {
    hide Top;
  }

  lemma TopOfStep(t: bv32, u: bv32, c: bv32, d: bv32)
    requires XorWord(t, Down8(c)) == XorWord(u, Down8(d))
    ensures Top(t) == Top(u) && (t == u ==> Down8(c) == Down8(d))
  {
  }

  lemma SameLow(c: bv32, d: bv32, x: byte, y: byte)
    requires XorByte(LowByte(c), x) == XorByte(LowByte(d), y) && Down8(c) == Down8(d)
    ensures (x == y ==> c == d) && (c == d ==> x == y)
  {
  }

  lemma CrcByteInjective(table: Table, c: bv32, x: byte, d: bv32, y: byte)
    requires Spread(table) && CrcByte(table, c, x) == CrcByte(table, d, y)
    ensures (x == y ==> c == d) && (c == d ==> x == y)
  {
    hide Spread; hide XorByte; hide LowByte; hide Top; hide Value; hide XorWord; hide Down8;
    var i, j := XorByte(LowByte(c), x), XorByte(LowByte(d), y);
    TopOfStep(table[Value(i)], table[Value(j)], c, d);
    SpreadInjective(table, Value(i), Value(j));
    ValueInjective(i, j);
    SameLow(c, d, x, y);
  }

  /** The same bytes after two registers keep them apart. */
  lemma {:induction false} CrcInjective(table: Table, c: bv32, d: bv32, data: seq<byte>)
    requires Spread(table)
    ensures Crc(table, c, data) == Crc(table, d, data) <==> c == d
  {
    hide CrcByte; hide Spread;
    if data != [] {
      var n := |data| - 1;
      CrcInjective(table, c, d, data[..n]);
      if Crc(table, c, data) == Crc(table, d, data) {
        CrcByteInjective(table, Crc(table, c, data[..n]), data[n], Crc(table, d, data[..n]), data[n]);
      }
    }
  }

  lemma {:induction false} CrcConcat(table: Table, c: bv32, a: seq<byte>, b: seq<byte>)
    ensures Crc(table, c, a + b) == Crc(table, Crc(table, c, a), b)
  {
    hide CrcByte;
    if b == [] {
      assert a + b == a;
    } else {
      var n := |b| - 1;
      CrcConcat(table, c, a, b[..n]);
      assert (a + b)[..|a| + n] == a + b[..n] && (a + b)[|a| + n] == b[n];
    }
  }

  lemma CrcOne(table: Table, c: bv32, x: byte)
    ensures Crc(table, c, [x]) == CrcByte(table, c, x)
  {
    assert [x][..0] == [];
    assert Crc(table, c, []) == c;
  }

  /** Data that differ in one byte have different integrity values. */
  lemma OneByteShows(table: Table, data: seq<byte>, k: nat, x: byte)
    requires Spread(table) && k < |data| && x != data[k]
    ensures Icv(table, data[k := x]) != Icv(table, data)
  {
    hide CrcByte; hide Spread; hide Crc; hide WordBytes;
    var a, b := data[..k], data[k + 1..];
    var c := Crc(table, 0xFFFF_FFFF, a);
    assert data == a + [data[k]] + b && data[k := x] == a + [x] + b;
    CrcConcat(table, 0xFFFF_FFFF, a, [data[k]]);
    CrcConcat(table, 0xFFFF_FFFF, a, [x]);
    CrcConcat(table, 0xFFFF_FFFF, a + [data[k]], b);
    CrcConcat(table, 0xFFFF_FFFF, a + [x], b);
    CrcOne(table, c, data[k]);
    CrcOne(table, c, x);
    CrcInjective(table, CrcByte(table, c, data[k]), CrcByte(table, c, x), b);
    if CrcByte(table, c, data[k]) == CrcByte(table, c, x) {
      CrcByteInjective(table, c, data[k], c, x);
    }
    ComplementApart(Crc(table, 0xFFFF_FFFF, data), Crc(table, 0xFFFF_FFFF, data[k := x]));
  }

  lemma ComplementApart(v: bv32, w: bv32)
    requires v != w
    ensures WordBytes(!v) != WordBytes(!w)
  {
    hide Le32Byte;
    NotApart(v, w);
  }

  lemma NotApart(v: bv32, w: bv32)
    requires v != w
    ensures !(Le32Byte(!v, 0) == Le32Byte(!w, 0) && Le32Byte(!v, 1) == Le32Byte(!w, 1)
              && Le32Byte(!v, 2) == Le32Byte(!w, 2) && Le32Byte(!v, 3) == Le32Byte(!w, 3))
  {
  }

  /** The polynomial of CRC-32, lowest power at the top. */
  const CRC32: bv32 := 0xEDB8_8320

  lemma TopNotZero(b: byte)
    requires b != 0
    ensures Top(Shift8(CRC32, Wide(b))) != 0
  {
  }

  lemma WideXor(a: byte, b: byte)
    ensures XorWord(Wide(a), Wide(b)) == Wide(XorByte(a, b)) && (a != b ==> XorByte(a, b) != 0)
  {
  }

  lemma TopXor(v: bv32, w: bv32)
    ensures Top(v) == Top(w) ==> Top(XorWord(v, w)) == 0
  {
  }

  /** Its table is one that tells bytes apart. */
  lemma Crc32Spreads()
    ensures Spread(TableOf(CRC32))
  {
    hide Shift4; hide Wide; hide Top; hide XorWord; hide XorByte; hide Byte;
    forall i, j | 0 <= i < j < 256 ensures Top(TableOf(CRC32)[i]) != Top(TableOf(CRC32)[j]) {
      var a, b := Byte(i), Byte(j);
      ByteValue(i);
      ByteValue(j);
      WideXor(a, b);
      TopNotZero(XorByte(a, b));
      Shift4Linear(CRC32, Wide(a), Wide(b));
      Shift4Linear(CRC32, Shift4(CRC32, Wide(a)), Shift4(CRC32, Wide(b)));
      TopXor(Shift8(CRC32, Wide(a)), Shift8(CRC32, Wide(b)));
    }
  }

  /** Some entries of crc32_table. */
  lemma Crc32Entries()
    ensures Shift8(CRC32, 0x01) == 0x7707_3096 && Shift8(CRC32, 0x80) == 0xEDB8_8320
    ensures Shift8(CRC32, 0xFF) == 0x2D02_EF8D
  {
  }

  lemma CheckStep(data: seq<byte>, n: nat, c: bv32, d: bv32)
    requires n < |data| && Crc(TableOf(CRC32), 0xFFFF_FFFF, data[..n]) == c
    requires Shift8(CRC32, XorWord(c, Wide(data[n]))) == d
    ensures Crc(TableOf(CRC32), 0xFFFF_FFFF, data[..n + 1]) == d
  {
    hide Shift8; hide XorWord; hide Wide; hide CrcByte; hide TableOf;
    TableDriven(CRC32, c, data[n]);
    assert data[..n + 1][..n] == data[..n];
  }

  const DIGITS: seq<byte> := [0x31, 0x32, 0x33, 0x34, 0x35, 0x36, 0x37, 0x38, 0x39]

  lemma FirstDigits()
    ensures Crc(TableOf(CRC32), 0xFFFF_FFFF, DIGITS[..5]) == 0x340A_C5E3
  {
    hide TableOf; hide CrcByte;
    assert DIGITS[..0] == [];
    CheckStep(DIGITS, 0, 0xFFFF_FFFF, 0x7C23_1048);
    CheckStep(DIGITS, 1, 0x7C23_1048, 0xB0AC_BB32);
    CheckStep(DIGITS, 2, 0xB0AC_BB32, 0x77B7_9C2D);
    CheckStep(DIGITS, 3, 0x77B7_9C2D, 0x641C_1F5C);
    CheckStep(DIGITS, 4, 0x641C_1F5C, 0x340A_C5E3);
  }

  /** The integrity value of the digits 1 to 9: the check value 0xCBF43926 of CRC-32, lowest byte first. */
  lemma CrcCheck()
    ensures Icv(TableOf(CRC32), DIGITS) == [0x26, 0x39, 0xF4, 0xCB]
  {
    hide TableOf; hide CrcByte;
    FirstDigits();
    assert DIGITS[..9] == DIGITS;
    CheckStep(DIGITS, 5, 0x340A_C5E3, 0xF68D_2C9E);
    CheckStep(DIGITS, 6, 0xF68D_2C9E, 0xAFFC_9660);
    CheckStep(DIGITS, 7, 0xAFFC_9660, 0x651F_2550);
    CheckStep(DIGITS, 8, 0x651F_2550, 0x340B_C6D9);
  }

  // ---------------------------------------------------------------------------
  // Protected data

  function Sealed(table: Table, key: seq<byte>, data: seq<byte>): (c: seq<byte>)
    requires key != []
    ensures |c| == |data| + 4
  {
    Crypt(Init(key), data + Icv(table, data))
  }

  /** Four bytes are the integrity value of what c without its last four decrypts to, under the key stream. */
  predicate Accepts(table: Table, key: seq<byte>, c: seq<byte>, icv: seq<byte>)
    requires key != [] && |c| >= 4
  {
    var n := |c| - 4;
    Crypt(After(Init(key), n), Icv(table, Crypt(Init(key), c[..n]))) == icv
  }

  /** What the receiver makes of it: the data, and whether the integrity value fits. */
  function Opened(table: Table, key: seq<byte>, c: seq<byte>): (r: (seq<byte>, bool))
    requires key != [] && |c| >= 4
  {
    var n := |c| - 4;
    (Crypt(Init(key), c[..n]), Accepts(table, key, c, c[n..]))
  }

  /** The four bytes the code compares with, when the last buffer holds `last` bytes of c and `behind` is the storage
      that follows them. */
  function Seen(c: seq<byte>, last: nat, behind: seq<byte>): (icv: seq<byte>)
    requires |c| >= 4 && (last < 4 ==> last + |behind| >= 4)
    ensures |icv| == 4
  {
    if last >= 4 then c[|c| - 4..] else c[|c| - last..] + behind[..4 - last]
  }

  lemma RoundTrip(table: Table, key: seq<byte>, data: seq<byte>)
    requires key != []
    ensures Opened(table, key, Sealed(table, key, data)) == (data, true)
  {
    hide Crypt; hide Icv; hide After; hide Init;
    var st, icv := Init(key), Icv(table, data);
    CryptConcat(st, data, icv);
    var c := Sealed(table, key, data);
    assert c[..|c| - 4] == Crypt(st, data) && c[|c| - 4..] == Crypt(After(st, |data|), icv);
    CryptTwice(st, data);
  }

  /** The receiver accepts exactly the ciphertexts a sender with the same key could have made. */
  lemma AcceptedOnlyIfSealed(table: Table, key: seq<byte>, c: seq<byte>)
    requires key != [] && |c| >= 4
    ensures Opened(table, key, c).1 <==> c == Sealed(table, key, Opened(table, key, c).0)
  {
    hide Crypt; hide Icv; hide After; hide Init;
    var st, n := Init(key), |c| - 4;
    var data := Crypt(st, c[..n]);
    CryptConcat(st, data, Icv(table, data));
    CryptTwice(st, c[..n]);
    assert c == c[..n] + c[n..];
    assert (c[..n] + Crypt(After(st, n), Icv(table, data)))[n..] == Crypt(After(st, n), Icv(table, data));
  }

  lemma CryptChanged(st: State, data: seq<byte>, k: nat, x: byte)
    requires Ok(st) && k < |data| && x != data[k]
    ensures var (p, q) := (Crypt(st, data), Crypt(st, data[k := x])); q == p[k := q[k]] && q[k] != p[k]
  {
    hide XorByte; hide KeyByte;
    XorByteCancels(data[k], KeyByte(st, k));
    XorByteCancels(x, KeyByte(st, k));
  }

  /** A sealed frame in which one byte was changed is refused, wherever the byte is. */
  lemma OneByteRefused(table: Table, key: seq<byte>, data: seq<byte>, k: nat, x: byte)
    requires key != [] && Spread(table) && k < |data| + 4 && x != Sealed(table, key, data)[k]
    ensures !Opened(table, key, Sealed(table, key, data)[k := x]).1
  {
    hide Crypt; hide Icv; hide After; hide Init; hide Spread; hide Sealed;
    var c, st, n := Sealed(table, key, data), Init(key), |data|;
    var d := c[k := x];
    RoundTrip(table, key, data);
    AcceptedOnlyIfSealed(table, key, c);
    if k < n {
      assert d[..n] == c[..n][k := x] && d[n..] == c[n..];
      CryptChanged(st, c[..n], k, x);
      var p := Crypt(st, d[..n]);
      OneByteShows(table, data, k, p[k]);
      CryptTwice(After(st, n), Icv(table, data));
      CryptTwice(After(st, n), Icv(table, p));
    } else {
      assert d[..n] == c[..n] && d[n..][k - n] == x && c[n..][k - n] != x;
    }
  }

  function Other(b: byte): (r: byte)
    ensures r != b
  {
    b ^ 1
  }

  /** A sealed frame whose integrity value straddles buffers is refused for some content of the storage behind it. */
  lemma StraddlingRefused(table: Table, key: seq<byte>, data: seq<byte>, last: nat)
    requires key != [] && last < 4
    ensures var c := Sealed(table, key, data);
            var behind := seq(4, _ => Other(c[|data| + last]));
            Opened(table, key, c).1 && !Accepts(table, key, c, Seen(c, last, behind))
  {
    hide Crypt; hide Icv; hide After; hide Init; hide Sealed; hide Other;
    var c := Sealed(table, key, data);
    RoundTrip(table, key, data);
    var seen := Seen(c, last, seq(4, _ => Other(c[|data| + last])));
    assert seen[last] == Other(c[|data| + last]) && c[|data|..][last] == c[|data| + last];
  }

  /** The verdict is right for all frames and whatever is behind them if and only if the last buffer holds four
      bytes. */
  lemma VerdictExactly(table: Table, key: seq<byte>, last: nat)
    requires key != []
    ensures (forall c: seq<byte>, behind: seq<byte> | |c| >= 4 && |behind| >= 4 ::
               Accepts(table, key, c, Seen(c, last, behind)) <==> Opened(table, key, c).1)
      <==> last >= 4
  {
    hide Crypt; hide Icv; hide After; hide Init; hide Sealed; hide Accepts;
    if last < 4 {
      StraddlingRefused(table, key, [], last);
    }
  }
}
