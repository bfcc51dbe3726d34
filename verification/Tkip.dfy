/** TKIP key mixing (section 8.3.2.5 of IEEE 802.11-2007) and what the cached phase-1 keys stand for. */
module Tkip {
  import opened Blocks
  import opened LittleEndian

  // ---------------------------------------------------------------------------
  // Mixing, for any S-box table

  type Sbox = t: seq<bv16> | |t| == 256 witness seq(256, _ => 0)

  /** The intermediate key. */
  datatype Ttak = Ttak(t0: bv16, t1: bv16, t2: bv16, t3: bv16, t4: bv16)

  function Mk16(hi: byte, lo: byte): bv16 { (lo as bv16) | ((hi as bv16) << 8) }
  function Lo8(v: bv16): byte { (v & 0xff) as bv8 }
  function Hi8(v: bv16): byte { (v >> 8) as bv8 }
  function RotR1(v: bv16): bv16 { (v >> 1) | (v << 15) }
  function Swap16(t: bv16): bv16 { (t << 8) | (t >> 8) }

  /** _S_: the 16-bit S-box from one table. */
  function S(box: Sbox, v: bv16): bv16 { Xor16(box[Value(Lo8(v))], Swap16(box[Value(Hi8(v))])) }

  function Add(a: bv16, b: bv16): bv16 { a + b }
  function Xor16(a: bv16, b: bv16): bv16 { a ^ b }

  /** Word k of the temporal key. */
  function TkWord(tk: seq<byte>, k: nat): bv16
    requires |tk| == 16 && k < 8
  {
    Mk16(tk[2 * k + 1], tk[2 * k])
  }

  /** Round i of phase 1; `n` is i as a word. */
  function Round(box: Sbox, tk: seq<byte>, i: nat, n: bv16, t: Ttak): Ttak
    requires |tk| == 16
  {
    var j := i % 2;
    var t0 := Add(t.t0, S(box, Xor16(t.t4, TkWord(tk, j))));
    var t1 := Add(t.t1, S(box, Xor16(t0, TkWord(tk, 2 + j))));
    var t2 := Add(t.t2, S(box, Xor16(t1, TkWord(tk, 4 + j))));
    var t3 := Add(t.t3, S(box, Xor16(t2, TkWord(tk, 6 + j))));
    Ttak(t0, t1, t2, t3, Add(Add(t.t4, S(box, Xor16(t3, TkWord(tk, j)))), n))
  }

  function Start(ta: seq<byte>, iv32: bv32): Ttak
    requires |ta| == 6
  {
    Ttak((iv32 & 0xffff) as bv16, (iv32 >> 16) as bv16, Mk16(ta[1], ta[0]), Mk16(ta[3], ta[2]), Mk16(ta[5], ta[4]))
  }

  /** n rounds of phase 1, and n as a word. */
  function Rounds(box: Sbox, tk: seq<byte>, t: Ttak, n: nat): (Ttak, bv16)
    requires |tk| == 16
  {
    if n == 0 then (t, 0)
    else var (u, w) := Rounds(box, tk, t, n - 1); (Round(box, tk, n - 1, w, u), w + 1)
  }

  function Phase1(box: Sbox, tk: seq<byte>, ta: seq<byte>, iv32: bv32): Ttak
    requires |tk| == 16 && |ta| == 6
  {
    Rounds(box, tk, Start(ta, iv32), 8).0
  }

  lemma AddCancels(a: bv16, b: bv16, c: bv16)
    ensures Add(a, c) == Add(b, c) <==> a == b
  {
  }

  /** A round can be undone, whatever the S-box. */
  lemma RoundInjective(box: Sbox, tk: seq<byte>, i: nat, n: bv16, t: Ttak, u: Ttak)
    requires |tk| == 16
    ensures Round(box, tk, i, n, t) == Round(box, tk, i, n, u) <==> t == u
  {
    hide S; hide Add; hide Xor16; hide TkWord;
    var r, j := Round(box, tk, i, n, t), i % 2;
    if r == Round(box, tk, i, n, u) {
      var last := S(box, Xor16(r.t3, TkWord(tk, j)));
      AddCancels(Add(t.t4, last), Add(u.t4, last), n);
      AddCancels(t.t4, u.t4, last);
      AddCancels(t.t0, u.t0, S(box, Xor16(t.t4, TkWord(tk, j))));
      AddCancels(t.t1, u.t1, S(box, Xor16(r.t0, TkWord(tk, 2 + j))));
      AddCancels(t.t2, u.t2, S(box, Xor16(r.t1, TkWord(tk, 4 + j))));
      AddCancels(t.t3, u.t3, S(box, Xor16(r.t2, TkWord(tk, 6 + j))));
    }
  }

  lemma {:induction false} RoundsInjective(box: Sbox, tk: seq<byte>, t: Ttak, u: Ttak, n: nat)
    requires |tk| == 16
    ensures Rounds(box, tk, t, n).1 == Rounds(box, tk, u, n).1
    ensures Rounds(box, tk, t, n).0 == Rounds(box, tk, u, n).0 <==> t == u
  {
    hide Round;
    if n > 0 {
      RoundsInjective(box, tk, t, u, n - 1);
      var (a, w) := Rounds(box, tk, t, n - 1);
      RoundInjective(box, tk, n - 1, w, a, Rounds(box, tk, u, n - 1).0);
    }
  }

  lemma Halves(a: bv32, b: bv32)
    ensures (a & 0xffff) as bv16 == (b & 0xffff) as bv16 && (a >> 16) as bv16 == (b >> 16) as bv16 <==> a == b
  {
  }

  lemma Mk16Injective(a: byte, b: byte, c: byte, d: byte)
    ensures Mk16(a, b) == Mk16(c, d) <==> a == c && b == d
  {
  }

  lemma StartInjective(ta: seq<byte>, a: bv32, tb: seq<byte>, b: bv32)
    requires |ta| == 6 && |tb| == 6
    ensures Start(ta, a) == Start(tb, b) <==> ta == tb && a == b
  {
    hide Mk16;
    Halves(a, b);
    Mk16Injective(ta[1], ta[0], tb[1], tb[0]);
    Mk16Injective(ta[3], ta[2], tb[3], tb[2]);
    Mk16Injective(ta[5], ta[4], tb[5], tb[4]);
  }

  /** Under one temporal key, no two transmitter addresses or upper counter halves share a phase-1 key. */
  lemma Phase1Injective(box: Sbox, tk: seq<byte>, ta: seq<byte>, a: bv32, tb: seq<byte>, b: bv32)
    requires |tk| == 16 && |ta| == 6 && |tb| == 6
    ensures Phase1(box, tk, ta, a) == Phase1(box, tk, tb, b) <==> ta == tb && a == b
  {
    hide Start; hide Rounds;
    StartInjective(ta, a, tb, b);
    RoundsInjective(box, tk, Start(ta, a), Start(tb, b), 8);
  }

  function WordLe(w: bv16): (s: seq<byte>)
    ensures |s| == 2
  {
    [Lo8(w), Hi8(w)]
  }

  /** Phase 2: the RC4 key of one frame. */
  function Phase2(box: Sbox, tk: seq<byte>, t: Ttak, iv16: bv16): (key: seq<byte>)
    requires |tk| == 16
    ensures |key| == 16
  {
    var p5 := Add(t.t4, iv16);
    var a0 := Add(t.t0, S(box, Xor16(p5, TkWord(tk, 0))));
    var a1 := Add(t.t1, S(box, Xor16(a0, TkWord(tk, 1))));
    var a2 := Add(t.t2, S(box, Xor16(a1, TkWord(tk, 2))));
    var a3 := Add(t.t3, S(box, Xor16(a2, TkWord(tk, 3))));
    var a4 := Add(t.t4, S(box, Xor16(a3, TkWord(tk, 4))));
    var a5 := Add(p5, S(box, Xor16(a4, TkWord(tk, 5))));
    var b0 := Add(a0, RotR1(Xor16(a5, TkWord(tk, 6))));
    var b1 := Add(a1, RotR1(Xor16(b0, TkWord(tk, 7))));
    var b2 := Add(a2, RotR1(b1));
    var b3 := Add(a3, RotR1(b2));
    var b4 := Add(a4, RotR1(b3));
    var b5 := Add(a5, RotR1(b4));
    [Hi8(iv16), WepSeed(Hi8(iv16)), Lo8(iv16), Lo8(Half(Xor16(b5, TkWord(tk, 0))))]
    + WordLe(b0) + WordLe(b1) + WordLe(b2) + WordLe(b3) + WordLe(b4) + WordLe(b5)
  }

  function Half(w: bv16): bv16 { w >> 1 }

  /** The byte that keeps the seed away from weak RC4 keys. */
  function WepSeed(b: byte): byte { (b | 0x20) & 0x7f }

  // ---------------------------------------------------------------------------
  // The same word by word, as section 8.3.2.5 of IEEE 802.11-2007 lays it out

  /** Words as numbers. */
  lemma WordsAreNumbers(hi: byte, lo: byte)
    ensures Mk16(hi, lo) as nat == 256 * Value(hi) + Value(lo)
    ensures Hi8(Mk16(hi, lo)) == hi && Lo8(Mk16(hi, lo)) == lo && Swap16(Mk16(hi, lo)) == Mk16(lo, hi)
  {
  }

  /** The S-box of a word: the entry of its lower byte, and that of its upper byte with its own bytes exchanged. */
  lemma SIs(box: Sbox, hi: byte, lo: byte)
    ensures S(box, Mk16(hi, lo)) ==
            Xor16(box[Value(lo)], Mk16(Lo8(box[Value(hi)]), Hi8(box[Value(hi)])))
  {
    hide Mk16; hide Swap16; hide Value; hide Lo8; hide Hi8; hide Xor16;
    WordsAreNumbers(hi, lo);
    SwapIs(box[Value(hi)]);
  }

  lemma SwapIs(w: bv16)
    ensures Swap16(w) == Mk16(Lo8(w), Hi8(w))
  {
  }

  lemma RotationsAreNumbers(v: bv16)
    ensures RotR1(v) == v / 2 + 0x8000 * (v % 2) && Half(v) == v / 2
  {
  }

  /** Step m on a ring of words: word m, counted around, gets a new value from its own and that of the word before. */
  function Turn<W>(p: seq<W>, f: (nat, W, W) -> W, m: nat): (r: seq<W>)
    requires p != []
    ensures |r| == |p|
  {
    var k := m % |p|;
    p[k := f(m, p[k], p[if k == 0 then |p| - 1 else k - 1])]
  }

  function Turns<W>(p: seq<W>, f: (nat, W, W) -> W, m: nat): (r: seq<W>)
    requires p != []
    ensures |r| == |p|
  {
    if m == 0 then p else Turn(Turns(p, f, m - 1), f, m - 1)
  }

  lemma NextTurn<W>(p: seq<W>, f: (nat, W, W) -> W, m: nat)
    requires p != []
    ensures Turns(p, f, m + 1) == Turn(Turns(p, f, m), f, m)
  {
  }

  lemma TurnAt<W>(p: seq<W>, f: (nat, W, W) -> W, i: nat, k: nat)
    requires k < |p|
    ensures Turn(p, f, |p| * i + k) == p[k := f(|p| * i + k, p[k], p[if k == 0 then |p| - 1 else k - 1])]
  {
    DivModUnique(|p| * i + k, |p|, i, k);
  }

  /** Once around five words. */
  lemma FiveTurns<W>(p: seq<W>, f: (nat, W, W) -> W, i: nat)
    requires |p| == 5
    ensures var m, q := 5 * i, Turns(p, f, 5 * i);
            var b0 := f(m, q[0], q[4]);
            var b1 := f(m + 1, q[1], b0);
            var b2 := f(m + 2, q[2], b1);
            var b3 := f(m + 3, q[3], b2);
            Turns(p, f, m + 5) == [b0, b1, b2, b3, f(m + 4, q[4], b3)]
  {
    hide Turn; hide Turns;
    var m, q0 := 5 * i, Turns(p, f, 5 * i);
    NextTurn(p, f, m); TurnAt(q0, f, i, 0);
    var q1 := Turns(p, f, m + 1);
    NextTurn(p, f, m + 1); TurnAt(q1, f, i, 1);
    var q2 := Turns(p, f, m + 2);
    NextTurn(p, f, m + 2); TurnAt(q2, f, i, 2);
    var q3 := Turns(p, f, m + 3);
    NextTurn(p, f, m + 3); TurnAt(q3, f, i, 3);
    NextTurn(p, f, m + 4); TurnAt(Turns(p, f, m + 4), f, i, 4);
  }

  /** Once around six. */
  lemma SixTurns<W>(p: seq<W>, f: (nat, W, W) -> W, i: nat)
    requires |p| == 6
    ensures var m, q := 6 * i, Turns(p, f, 6 * i);
            var b0 := f(m, q[0], q[5]);
            var b1 := f(m + 1, q[1], b0);
            var b2 := f(m + 2, q[2], b1);
            var b3 := f(m + 3, q[3], b2);
            var b4 := f(m + 4, q[4], b3);
            Turns(p, f, m + 6) == [b0, b1, b2, b3, b4, f(m + 5, q[5], b4)]
  {
    hide Turn; hide Turns;
    var m, q0 := 6 * i, Turns(p, f, 6 * i);
    NextTurn(p, f, m); TurnAt(q0, f, i, 0);
    var q1 := Turns(p, f, m + 1);
    NextTurn(p, f, m + 1); TurnAt(q1, f, i, 1);
    var q2 := Turns(p, f, m + 2);
    NextTurn(p, f, m + 2); TurnAt(q2, f, i, 2);
    var q3 := Turns(p, f, m + 3);
    NextTurn(p, f, m + 3); TurnAt(q3, f, i, 3);
    var q4 := Turns(p, f, m + 4);
    NextTurn(p, f, m + 4); TurnAt(q4, f, i, 4);
    NextTurn(p, f, m + 5); TurnAt(Turns(p, f, m + 5), f, i, 5);
  }

  lemma FiveTurnsTo<W>(p: seq<W>, f: (nat, W, W) -> W, i: nat, q: seq<W>, b0: W, b1: W, b2: W, b3: W, b4: W)
    requires |p| == 5 && q == Turns(p, f, 5 * i) && f(5 * i, q[0], q[4]) == b0 && f(5 * i + 1, q[1], b0) == b1
    requires f(5 * i + 2, q[2], b1) == b2 && f(5 * i + 3, q[3], b2) == b3 && f(5 * i + 4, q[4], b3) == b4
    ensures Turns(p, f, 5 * i + 5) == [b0, b1, b2, b3, b4]
  {
    hide Turns;
    FiveTurns(p, f, i);
  }

  lemma SixTurnsTo<W>(p: seq<W>, f: (nat, W, W) -> W, i: nat, q: seq<W>, b0: W, b1: W, b2: W, b3: W, b4: W, b5: W)
    requires |p| == 6 && q == Turns(p, f, 6 * i) && f(6 * i, q[0], q[5]) == b0 && f(6 * i + 1, q[1], b0) == b1
    requires f(6 * i + 2, q[2], b1) == b2 && f(6 * i + 3, q[3], b2) == b3
    requires f(6 * i + 4, q[4], b3) == b4 && f(6 * i + 5, q[5], b4) == b5
    ensures Turns(p, f, 6 * i + 6) == [b0, b1, b2, b3, b4, b5]
  {
    hide Turns;
    SixTurns(p, f, i);
  }

  /** The new value tells the old ones apart. */
  ghost predicate Undoable<W(!new)>(f: (nat, W, W) -> W) {
    forall m, x, y, b :: f(m, x, b) == f(m, y, b) ==> x == y
  }

  lemma TurnInjective<W(!new)>(p: seq<W>, q: seq<W>, f: (nat, W, W) -> W, m: nat)
    requires 1 < |p| == |q| && Undoable(f) && Turn(p, f, m) == Turn(q, f, m)
    ensures p == q
  {
    var k := m % |p|;
    var u, v := Turn(p, f, m), Turn(q, f, m);
    forall i | 0 <= i < |p| && i != k ensures p[i] == q[i] {
      assert u[i] == p[i] && v[i] == q[i];
    }
    var b := if k == 0 then |p| - 1 else k - 1;
    assert u[k] == f(m, p[k], p[b]) && v[k] == f(m, q[k], q[b]) && p[b] == q[b];
  }

  lemma {:induction false} TurnsInjective<W(!new)>(p: seq<W>, q: seq<W>, f: (nat, W, W) -> W, m: nat)
    requires 1 < |p| == |q| && Undoable(f)
    ensures Turns(p, f, m) == Turns(q, f, m) <==> p == q
  {
    hide Turn; hide Undoable;
    if m > 0 {
      TurnsInjective(p, q, f, m - 1);
      if Turns(p, f, m) == Turns(q, f, m) {
        TurnInjective(Turns(p, f, m - 1), Turns(q, f, m - 1), f, m - 1);
      }
    }
  }

  /** The key bytes at b and b + 1, as a word. */
  function KeyAt(tk: seq<byte>, b: nat): bv16
    requires |tk| == 16 && b + 1 < 16
  {
    Mk16(tk[b + 1], tk[b])
  }

  function Count16(n: nat): bv16 { if n == 0 then 0 else Count16(n - 1) + 1 }

  /** Phase 1: the S-box of the word before, with a key word; the last word of a round gets the round's number too. */
  function Feed1(box: Sbox, tk: seq<byte>, m: nat, w: bv16, before: bv16): bv16
    requires |tk| == 16
  {
    var k, i := m % 5, m / 5;
    var sum := Add(w, S(box, Xor16(before, KeyAt(tk, 4 * k % 16 + 2 * (i % 2)))));
    if k == 4 then Add(sum, Count16(i)) else sum
  }

  /** Phase 2: the S-box of the word before, with a key word, then rotations, of which the first two have a key word. */
  function Feed2(box: Sbox, tk: seq<byte>, m: nat, w: bv16, before: bv16): bv16
    requires |tk| == 16
  {
    Add(w, if m < 6 then S(box, Xor16(before, KeyAt(tk, 2 * m)))
           else if m < 8 then RotR1(Xor16(before, KeyAt(tk, 2 * m))) else RotR1(before))
  }

  function Feeder1(box: Sbox, tk: seq<byte>): (nat, bv16, bv16) -> bv16
    requires |tk| == 16
  {
    (m: nat, w: bv16, before: bv16) => Feed1(box, tk, m, w, before)
  }

  function Feeder2(box: Sbox, tk: seq<byte>): (nat, bv16, bv16) -> bv16
    requires |tk| == 16
  {
    (m: nat, w: bv16, before: bv16) => Feed2(box, tk, m, w, before)
  }

  function Listed(t: Ttak): (q: seq<bv16>)
    ensures |q| == 5
  {
    [t.t0, t.t1, t.t2, t.t3, t.t4]
  }

  lemma Feed1At(box: Sbox, tk: seq<byte>, i: nat, k: nat, word: nat, w: bv16, before: bv16)
    requires |tk| == 16 && k < 5 && word == 2 * k % 8 + i % 2
    ensures var sum := Add(w, S(box, Xor16(before, TkWord(tk, word))));
            Feeder1(box, tk)(5 * i + k, w, before) == if k == 4 then Add(sum, Count16(i)) else sum
  {
    hide S; hide Add; hide Xor16; hide Mk16; hide Count16;
    var m := 5 * i + k;
    assert m % 5 == k && m / 5 == i;
  }

  lemma RoundParts(box: Sbox, tk: seq<byte>, i: nat, n: bv16, t: Ttak)
    requires |tk| == 16
    ensures var r, j := Round(box, tk, i, n, t), i % 2;
            && r.t0 == Add(t.t0, S(box, Xor16(t.t4, TkWord(tk, j))))
            && r.t1 == Add(t.t1, S(box, Xor16(r.t0, TkWord(tk, 2 + j))))
            && r.t2 == Add(t.t2, S(box, Xor16(r.t1, TkWord(tk, 4 + j))))
            && r.t3 == Add(t.t3, S(box, Xor16(r.t2, TkWord(tk, 6 + j))))
            && r.t4 == Add(Add(t.t4, S(box, Xor16(r.t3, TkWord(tk, j)))), n)
  {
    hide S; hide Add; hide Xor16; hide TkWord;
  }

  lemma RoundIsTurns(box: Sbox, tk: seq<byte>, q: seq<bv16>, i: nat, t: Ttak)
    requires |tk| == 16 && |q| == 5 && Turns(q, Feeder1(box, tk), 5 * i) == Listed(t)
    ensures Turns(q, Feeder1(box, tk), 5 * i + 5) == Listed(Round(box, tk, i, Count16(i), t))
  {
    hide S; hide Add; hide Xor16; hide TkWord; hide Count16; hide Turns; hide Feeder1; hide Round;
    var r, j := Round(box, tk, i, Count16(i), t), i % 2;
    RoundParts(box, tk, i, Count16(i), t);
    Feed1At(box, tk, i, 0, j, t.t0, t.t4);
    Feed1At(box, tk, i, 1, 2 + j, t.t1, r.t0);
    Feed1At(box, tk, i, 2, 4 + j, t.t2, r.t1);
    Feed1At(box, tk, i, 3, 6 + j, t.t3, r.t2);
    Feed1At(box, tk, i, 4, j, t.t4, r.t3);
    FiveTurnsTo(q, Feeder1(box, tk), i, Listed(t), r.t0, r.t1, r.t2, r.t3, r.t4);
  }

  lemma {:induction false} RoundsAreTurns(box: Sbox, tk: seq<byte>, t: Ttak, n: nat)
    requires |tk| == 16
    ensures Rounds(box, tk, t, n).1 == Count16(n)
    ensures Listed(Rounds(box, tk, t, n).0) == Turns(Listed(t), Feeder1(box, tk), 5 * n)
  {
    hide Round; hide Turn; hide Feeder1;
    if n > 0 {
      RoundsAreTurns(box, tk, t, n - 1);
      RoundIsTurns(box, tk, Listed(t), n - 1, Rounds(box, tk, t, n - 1).0);
    }
  }

  /** Phase 1 is forty steps around five words, from the halves of the counter and the words of the address. */
  lemma Phase1IsStandard(box: Sbox, tk: seq<byte>, ta: seq<byte>, iv32: bv32)
    requires |tk| == 16 && |ta| == 6
    ensures var q := [(iv32 % 0x1_0000) as bv16, (iv32 / 0x1_0000) as bv16,
                      Mk16(ta[1], ta[0]), Mk16(ta[3], ta[2]), Mk16(ta[5], ta[4])];
            Listed(Phase1(box, tk, ta, iv32)) == Turns(q, Feeder1(box, tk), 40)
  {
    hide Rounds; hide Turns; hide Mk16; hide Feeder1;
    CounterHalves(iv32);
    RoundsAreTurns(box, tk, Start(ta, iv32), 8);
  }

  lemma CounterHalves(iv32: bv32)
    ensures (iv32 & 0xffff) as bv16 == (iv32 % 0x1_0000) as bv16 && (iv32 >> 16) as bv16 == (iv32 / 0x1_0000) as bv16
  {
  }

  /** The words that phase 2 starts from. */
  function Spread(t: Ttak, iv16: bv16): (p: seq<bv16>)
    ensures |p| == 6
  {
    [t.t0, t.t1, t.t2, t.t3, t.t4, Add(t.t4, iv16)]
  }

  lemma Feed2At(box: Sbox, tk: seq<byte>, m: nat, w: bv16, before: bv16)
    requires |tk| == 16 && m < 12
    ensures Feeder2(box, tk)(m, w, before) ==
            Add(w, if m < 6 then S(box, Xor16(before, TkWord(tk, m)))
                   else if m < 8 then RotR1(Xor16(before, TkWord(tk, m))) else RotR1(before))
  {
    hide S; hide Add; hide Xor16; hide Mk16; hide RotR1;
  }

  /** Phase 2 is twelve steps around six words. The seed is the upper counter byte, the byte that keeps it away from
      weak keys, the lower counter byte, a byte of the last word, and the six words, lower byte first. */
  lemma Phase2IsStandard(box: Sbox, tk: seq<byte>, t: Ttak, iv16: bv16)
    requires |tk| == 16
    ensures var p := Turns(Spread(t, iv16), Feeder2(box, tk), 12);
            Phase2(box, tk, t, iv16) ==
            [Hi8(iv16), (Hi8(iv16) | 0x20) & 0x7f, Lo8(iv16), Lo8(Half(Xor16(p[5], KeyAt(tk, 0))))]
            + WordLe(p[0]) + WordLe(p[1]) + WordLe(p[2]) + WordLe(p[3]) + WordLe(p[4]) + WordLe(p[5])
  {
    hide S; hide Add; hide Xor16; hide TkWord; hide RotR1; hide Lo8; hide Hi8; hide Half; hide Turns; hide Feeder2;
    hide WordLe;
    var p5 := Add(t.t4, iv16);
    var a0 := Add(t.t0, S(box, Xor16(p5, TkWord(tk, 0))));
    var a1 := Add(t.t1, S(box, Xor16(a0, TkWord(tk, 1))));
    var a2 := Add(t.t2, S(box, Xor16(a1, TkWord(tk, 2))));
    var a3 := Add(t.t3, S(box, Xor16(a2, TkWord(tk, 3))));
    var a4 := Add(t.t4, S(box, Xor16(a3, TkWord(tk, 4))));
    var a5 := Add(p5, S(box, Xor16(a4, TkWord(tk, 5))));
    Substituted(box, tk, t, iv16, a0, a1, a2, a3, a4, a5);
    var b0 := Add(a0, RotR1(Xor16(a5, TkWord(tk, 6))));
    var b1 := Add(a1, RotR1(Xor16(b0, TkWord(tk, 7))));
    var b2 := Add(a2, RotR1(b1));
    var b3 := Add(a3, RotR1(b2));
    var b4 := Add(a4, RotR1(b3));
    Rotated(box, tk, Spread(t, iv16), [a0, a1, a2, a3, a4, a5], b0, b1, b2, b3, b4, Add(a5, RotR1(b4)));
    FirstKeyWord(tk);
  }

  lemma Substituted(box: Sbox, tk: seq<byte>, t: Ttak, iv16: bv16,
                    a0: bv16, a1: bv16, a2: bv16, a3: bv16, a4: bv16, a5: bv16)
    requires |tk| == 16 && a0 == Add(t.t0, S(box, Xor16(Add(t.t4, iv16), TkWord(tk, 0))))
    requires a1 == Add(t.t1, S(box, Xor16(a0, TkWord(tk, 1)))) && a2 == Add(t.t2, S(box, Xor16(a1, TkWord(tk, 2))))
    requires a3 == Add(t.t3, S(box, Xor16(a2, TkWord(tk, 3)))) && a4 == Add(t.t4, S(box, Xor16(a3, TkWord(tk, 4))))
    requires a5 == Add(Add(t.t4, iv16), S(box, Xor16(a4, TkWord(tk, 5))))
    ensures Turns(Spread(t, iv16), Feeder2(box, tk), 6) == [a0, a1, a2, a3, a4, a5]
  {
    hide S; hide Add; hide Xor16; hide TkWord; hide RotR1; hide Turns; hide Feeder2;
    var p5 := Add(t.t4, iv16);
    NoTurn(Spread(t, iv16), Feeder2(box, tk));
    Feed2At(box, tk, 0, t.t0, p5); Feed2At(box, tk, 1, t.t1, a0); Feed2At(box, tk, 2, t.t2, a1);
    Feed2At(box, tk, 3, t.t3, a2); Feed2At(box, tk, 4, t.t4, a3); Feed2At(box, tk, 5, p5, a4);
    SixTurnsTo(Spread(t, iv16), Feeder2(box, tk), 0, Spread(t, iv16), a0, a1, a2, a3, a4, a5);
  }

  lemma Rotated(box: Sbox, tk: seq<byte>, p: seq<bv16>, a: seq<bv16>,
                b0: bv16, b1: bv16, b2: bv16, b3: bv16, b4: bv16, b5: bv16)
    requires |tk| == 16 && |p| == 6 && a == Turns(p, Feeder2(box, tk), 6)
    requires b0 == Add(a[0], RotR1(Xor16(a[5], TkWord(tk, 6)))) && b1 == Add(a[1], RotR1(Xor16(b0, TkWord(tk, 7))))
    requires b2 == Add(a[2], RotR1(b1)) && b3 == Add(a[3], RotR1(b2)) && b4 == Add(a[4], RotR1(b3))
    requires b5 == Add(a[5], RotR1(b4))
    ensures Turns(p, Feeder2(box, tk), 12) == [b0, b1, b2, b3, b4, b5]
  {
    hide S; hide Add; hide Xor16; hide TkWord; hide RotR1; hide Turns; hide Feeder2;
    Feed2At(box, tk, 6, a[0], a[5]); Feed2At(box, tk, 7, a[1], b0); Feed2At(box, tk, 8, a[2], b1);
    Feed2At(box, tk, 9, a[3], b2); Feed2At(box, tk, 10, a[4], b3); Feed2At(box, tk, 11, a[5], b4);
    SixTurnsTo(p, Feeder2(box, tk), 1, a, b0, b1, b2, b3, b4, b5);
  }

  lemma NoTurn<W>(p: seq<W>, f: (nat, W, W) -> W)
    requires p != []
    ensures Turns(p, f, 0) == p
  {
  }

  lemma FirstKeyWord(tk: seq<byte>)
    requires |tk| == 16
    ensures TkWord(tk, 0) == KeyAt(tk, 0)
  {
  }

  /** A word as its two bytes, the lower one first. */
  lemma WordLeIs(w: bv16, v: bv16)
    ensures WordLe(w) == [Lo8(w), Hi8(w)] && Mk16(Hi8(w), Lo8(w)) == w && (WordLe(w) == WordLe(v) <==> w == v)
  {
    hide Mk16; hide Hi8; hide Lo8;
    FromBytes(w);
    FromBytes(v);
    if WordLe(w) == WordLe(v) {
      assert WordLe(w)[0] == WordLe(v)[0] && WordLe(w)[1] == WordLe(v)[1];
    }
  }

  lemma FromBytes(w: bv16)
    ensures Mk16(Hi8(w), Lo8(w)) == w
  {
  }

  // ---------------------------------------------------------------------------
  // What phase 2 tells apart

  lemma AddCommutes(a: bv16, b: bv16)
    ensures Add(a, b) == Add(b, a)
  {
  }

  lemma Feeder2Undoable(box: Sbox, tk: seq<byte>)
    requires |tk| == 16
    ensures Undoable(Feeder2(box, tk))
  {
    hide S; hide Add; hide Xor16; hide KeyAt; hide RotR1;
    forall m: nat, x, y, b | Feeder2(box, tk)(m, x, b) == Feeder2(box, tk)(m, y, b) ensures x == y {
      AddCancels(x, y, if m < 6 then S(box, Xor16(b, KeyAt(tk, 2 * m)))
                       else if m < 8 then RotR1(Xor16(b, KeyAt(tk, 2 * m))) else RotR1(b));
    }
  }

  lemma SpreadInjective(t: Ttak, a: bv16, u: Ttak, b: bv16)
    ensures Spread(t, a) == Spread(u, b) <==> t == u && a == b
  {
    hide Add;
    var p, q := Spread(t, a), Spread(u, b);
    if p == q {
      assert p[0] == q[0] && p[1] == q[1] && p[2] == q[2] && p[3] == q[3] && p[4] == q[4] && p[5] == q[5];
      AddCommutes(t.t4, a);
      AddCommutes(t.t4, b);
      AddCancels(a, b, t.t4);
    }
  }

  lemma SeedTail(box: Sbox, tk: seq<byte>, t: Ttak, a: bv16)
    requires |tk| == 16
    ensures var p := Turns(Spread(t, a), Feeder2(box, tk), 12);
            Phase2(box, tk, t, a)[4..] ==
            WordLe(p[0]) + WordLe(p[1]) + WordLe(p[2]) + WordLe(p[3]) + WordLe(p[4]) + WordLe(p[5])
  {
    hide Xor16; hide KeyAt; hide Lo8; hide Hi8; hide Half; hide Phase2; hide Turns; hide Feeder2; hide WordLe;
    hide Spread;
    Phase2IsStandard(box, tk, t, a);
    var p := Turns(Spread(t, a), Feeder2(box, tk), 12);
    Behind([Hi8(a), (Hi8(a) | 0x20) & 0x7f, Lo8(a), Lo8(Half(Xor16(p[5], KeyAt(tk, 0))))],
           WordLe(p[0]), WordLe(p[1]), WordLe(p[2]), WordLe(p[3]), WordLe(p[4]), WordLe(p[5]));
  }

  lemma Behind<T>(h: seq<T>, a0: seq<T>, a1: seq<T>, a2: seq<T>, a3: seq<T>, a4: seq<T>, a5: seq<T>)
    ensures (h + a0 + a1 + a2 + a3 + a4 + a5)[|h|..] == a0 + a1 + a2 + a3 + a4 + a5
  {
  }

  /** Under one temporal key and any S-box, the twelve mixed bytes of two seeds are equal if and only if phase-1 key and
      lower counter half are. */
  lemma Phase2Injective(box: Sbox, tk: seq<byte>, t: Ttak, a: bv16, u: Ttak, b: bv16)
    requires |tk| == 16
    ensures Phase2(box, tk, t, a)[4..] == Phase2(box, tk, u, b)[4..] <==> t == u && a == b
  {
    hide Xor16; hide KeyAt; hide Lo8; hide Hi8; hide Half; hide Phase2; hide Turns; hide Feeder2; hide WordLe;
    hide Spread;
    hide Undoable;
    var f := Feeder2(box, tk);
    SeedTail(box, tk, t, a);
    SeedTail(box, tk, u, b);
    Feeder2Undoable(box, tk);
    TurnsInjective(Spread(t, a), Spread(u, b), f, 12);
    SpreadInjective(t, a, u, b);
    var p, q := Turns(Spread(t, a), f, 12), Turns(Spread(u, b), f, 12);
    forall v: bv16, w: bv16 ensures |WordLe(v)| == 2 && (WordLe(v) == WordLe(w) ==> v == w) {
      WordLeIs(v, w);
    }
    if Phase2(box, tk, t, a)[4..] == Phase2(box, tk, u, b)[4..] {
      SixApart(p, q, WordLe);
    }
  }

  /** Six words written one behind the other can be read back. */
  lemma SixApart<W(!new), T>(p: seq<W>, q: seq<W>, le: W -> seq<T>)
    requires |p| == 6 && |q| == 6 && forall v, w :: |le(v)| == 2 && (le(v) == le(w) ==> v == w)
    requires le(p[0]) + le(p[1]) + le(p[2]) + le(p[3]) + le(p[4]) + le(p[5])
          == le(q[0]) + le(q[1]) + le(q[2]) + le(q[3]) + le(q[4]) + le(q[5])
    ensures p == q
  {
    PairsApart(le(p[0]), le(p[1]), le(p[2]), le(p[3]), le(p[4]), le(p[5]),
               le(q[0]), le(q[1]), le(q[2]), le(q[3]), le(q[4]), le(q[5]));
  }

  lemma PairsApart<T>(a0: seq<T>, a1: seq<T>, a2: seq<T>, a3: seq<T>, a4: seq<T>, a5: seq<T>,
                      b0: seq<T>, b1: seq<T>, b2: seq<T>, b3: seq<T>, b4: seq<T>, b5: seq<T>)
    requires |a0| == |a1| == |a2| == |a3| == |a4| == |a5| == 2 == |b0| == |b1| == |b2| == |b3| == |b4| == |b5|
    requires a0 + a1 + a2 + a3 + a4 + a5 == b0 + b1 + b2 + b3 + b4 + b5
    ensures a0 == b0 && a1 == b1 && a2 == b2 && a3 == b3 && a4 == b4 && a5 == b5
  {
    var x, y := a0 + a1 + a2 + a3 + a4 + a5, b0 + b1 + b2 + b3 + b4 + b5;
    assert x[0..2] == a0 && y[0..2] == b0 && x[2..4] == a1 && y[2..4] == b1 && x[4..6] == a2 && y[4..6] == b2;
    assert x[6..8] == a3 && y[6..8] == b3 && x[8..10] == a4 && y[8..10] == b4 && x[10..12] == a5 && y[10..12] == b5;
  }

  // ---------------------------------------------------------------------------
  // Sequence counters

  function Iv32(tsc: bv64): bv32 { ((tsc >> 16) & 0xffff_ffff) as bv32 }
  function Iv16(tsc: bv64): bv16 { (tsc & 0xffff) as bv16 }

  /** The RC4 key of the frame with sequence counter tsc, both phases computed afresh. */
  function FrameKey(box: Sbox, tk: seq<byte>, ta: seq<byte>, tsc: bv64): (key: seq<byte>)
    requires |tk| == 16 && |ta| == 6
    ensures |key| == 16
  {
    Phase2(box, tk, Phase1(box, tk, ta, Iv32(tsc)), Iv16(tsc))
  }

  /** Under one temporal key two frames share their RC4 key if and only if they share transmitter and counter. */
  lemma FrameKeyInjective(box: Sbox, tk: seq<byte>, ta: seq<byte>, a: bv64, tb: seq<byte>, b: bv64)
    requires |tk| == 16 && |ta| == 6 && |tb| == 6
    ensures FrameKey(box, tk, ta, a) == FrameKey(box, tk, tb, b) <==>
              ta == tb && Low48(a) == Low48(b)
  {
    hide Phase1; hide Phase2; hide Iv32; hide Iv16; hide Low48;
    CounterParts(a, b);
    Phase1Injective(box, tk, ta, Iv32(a), tb, Iv32(b));
    Phase2Injective(box, tk, Phase1(box, tk, ta, Iv32(a)), Iv16(a), Phase1(box, tk, tb, Iv32(b)), Iv16(b));
  }

  lemma CounterParts(a: bv64, b: bv64)
    ensures Iv32(a) == Iv32(b) && Iv16(a) == Iv16(b) <==> Low48(a) == Low48(b)
  {
    hide Iv32; hide Iv16; hide Low48; hide Joined;
    FromParts(a);
    FromParts(b);
  }

  /** The counter as it goes over the air. */
  function Low48(a: bv64): bv64 { a & 0xFFFF_FFFF_FFFF }

  function Joined(hi: bv32, lo: bv16): bv64 { (hi as bv64 << 16) | lo as bv64 }

  lemma FromParts(a: bv64)
    ensures Low48(a) == Joined(Iv32(a), Iv16(a)) && Iv32(Low48(a)) == Iv32(a) && Iv16(Low48(a)) == Iv16(a)
  {
  }

  function Next(tsc: bv64): bv64 { tsc + 1 }

  /** The upper half changes exactly when the lower one wraps. */
  lemma NextTsc(tsc: bv64)
    ensures Iv16(Next(tsc)) != 0 <==> Iv32(Next(tsc)) == Iv32(tsc)
  {
  }

  // ---------------------------------------------------------------------------
  // The cached phase-1 key of a receiver

  /** The mixing function of one temporal key and one transmitter address, reduced to what the cache sees. */
  type Mixer = bv32 -> Ttak

  /** rsc: the last counter whose MIC was verified; ttak: the cached key, valid when done. */
  datatype Rx = Rx(rsc: bv64, done: bool, ttak: Ttak)

  /** The cached key is that of the last verified counter. */
  ghost predicate Good(mix: Mixer, rx: Rx) { rx.done ==> rx.ttak == mix(Iv32(rx.rsc)) }

  /** The phase-1 key tkip_decrypt uses for a frame with counter tsc. */
  function Used(mix: Mixer, rx: Rx, tsc: bv64): Ttak {
    if Iv32(tsc) != Iv32(rx.rsc) || !rx.done then mix(Iv32(tsc)) else rx.ttak
  }

  /** The cache after tkip_decrypt. */
  function Decrypted(mix: Mixer, rx: Rx, tsc: bv64, icvOk: bool): Rx {
    Rx(rx.rsc, icvOk || Iv32(tsc) == Iv32(rx.rsc), Used(mix, rx, tsc))
  }

  /** The cache after tkip_demic accepted the frame. */
  function Demicced(rx: Rx, tsc: bv64): Rx { rx.(rsc := tsc) }

  /** A frame gets its own phase-1 key exactly when nothing stale is cached for its upper counter half. */
  lemma UsedExactly(mix: Mixer, rx: Rx, tsc: bv64)
    ensures Used(mix, rx, tsc) == mix(Iv32(tsc))
      <==> !(rx.done && Iv32(tsc) == Iv32(rx.rsc) && rx.ttak != mix(Iv32(rx.rsc)))
    ensures Good(mix, rx) ==> Used(mix, rx, tsc) == mix(Iv32(tsc))
  {
  }

  /** What arrives at a receiver that hands every decrypted frame straight to the MIC check. */
  datatype Frame = Frame(tsc: bv64, icvOk: bool, micOk: bool)

  function Receive(mix: Mixer, rx: Rx, f: Frame): Rx {
    var d := Decrypted(mix, rx, f.tsc, f.icvOk);
    if f.icvOk && f.micOk then Demicced(d, f.tsc) else d
  }

  function MixerOf(box: Sbox, tk: seq<byte>, ta: seq<byte>): Mixer
    requires |tk| == 16 && |ta| == 6
  {
    iv32 => Phase1(box, tk, ta, iv32)
  }

  /** A frame of another counter range passes its ICV and fails its MIC. */
  predicate Spoils(rsc: bv64, f: Frame) { f.icvOk && !f.micOk && Iv32(f.tsc) != Iv32(rsc) }

  /** One frame keeps the cache good, except one that fails only its MIC, from another counter range. */
  lemma ReceiveKeepsGood(box: Sbox, tk: seq<byte>, ta: seq<byte>, rx: Rx, f: Frame)
    requires |tk| == 16 && |ta| == 6 && Good(MixerOf(box, tk, ta), rx)
    ensures Good(MixerOf(box, tk, ta), Receive(MixerOf(box, tk, ta), rx, f)) <==> !Spoils(rx.rsc, f)
  {
    hide Iv32; hide Phase1;
    Phase1Injective(box, tk, ta, Iv32(f.tsc), ta, Iv32(rx.rsc));
  }

  function ReceiveAll(mix: Mixer, rx: Rx, fs: seq<Frame>): Rx {
    if fs == [] then rx else Receive(mix, ReceiveAll(mix, rx, fs[..|fs| - 1]), fs[|fs| - 1])
  }

  lemma ReceiveNext(mix: Mixer, rx: Rx, fs: seq<Frame>, k: nat)
    requires k < |fs|
    ensures ReceiveAll(mix, rx, fs[..k + 1]) == Receive(mix, ReceiveAll(mix, rx, fs[..k]), fs[k])
  {
    assert fs[..k + 1][..k] == fs[..k];
  }

  lemma {:induction false} GoodSoFar(box: Sbox, tk: seq<byte>, ta: seq<byte>, rx: Rx, fs: seq<Frame>, k: nat)
    requires |tk| == 16 && |ta| == 6 && Good(MixerOf(box, tk, ta), rx) && k <= |fs|
    requires forall i :: 0 <= i < k ==> !Spoils(ReceiveAll(MixerOf(box, tk, ta), rx, fs[..i]).rsc, fs[i])
    ensures Good(MixerOf(box, tk, ta), ReceiveAll(MixerOf(box, tk, ta), rx, fs[..k]))
  {
    hide Spoils; hide Receive; hide Good; hide MixerOf;
    if k > 0 {
      GoodSoFar(box, tk, ta, rx, fs, k - 1);
      ReceiveNext(MixerOf(box, tk, ta), rx, fs, k - 1);
      ReceiveKeepsGood(box, tk, ta, ReceiveAll(MixerOf(box, tk, ta), rx, fs[..k - 1]), fs[k - 1]);
    }
  }

  /** The cache is good all through a run if and only if no frame of another counter range than the one in use passes
      its ICV and fails its MIC. */
  lemma GoodExactly(box: Sbox, tk: seq<byte>, ta: seq<byte>, rx: Rx, fs: seq<Frame>)
    requires |tk| == 16 && |ta| == 6 && Good(MixerOf(box, tk, ta), rx)
    ensures var mix := MixerOf(box, tk, ta);
            (forall k :: 0 <= k <= |fs| ==> Good(mix, ReceiveAll(mix, rx, fs[..k])))
            <==> forall k :: 0 <= k < |fs| ==> !Spoils(ReceiveAll(mix, rx, fs[..k]).rsc, fs[k])
  {
    hide Spoils; hide Receive; hide Good; hide MixerOf; hide ReceiveAll;
    var mix := MixerOf(box, tk, ta);
    if forall k :: 0 <= k <= |fs| ==> Good(mix, ReceiveAll(mix, rx, fs[..k])) {
      forall k | 0 <= k < |fs| ensures !Spoils(ReceiveAll(mix, rx, fs[..k]).rsc, fs[k]) {
        ReceiveNext(mix, rx, fs, k);
        ReceiveKeepsGood(box, tk, ta, ReceiveAll(mix, rx, fs[..k]), fs[k]);
        assert Good(mix, ReceiveAll(mix, rx, fs[..k + 1]));
      }
    } else {
      var k :| 0 <= k <= |fs| && !Good(mix, ReceiveAll(mix, rx, fs[..k]));
      if forall i :: 0 <= i < k ==> !Spoils(ReceiveAll(mix, rx, fs[..i]).rsc, fs[i]) {
        GoodSoFar(box, tk, ta, rx, fs, k);
      }
    }
  }

  /** In a run where every frame that passes decapsulation passes its MIC check, every frame is decrypted
      with its own two-phase key. */
  lemma RunKeepsGood(box: Sbox, tk: seq<byte>, ta: seq<byte>, rx: Rx, fs: seq<Frame>, k: nat)
    requires |tk| == 16 && |ta| == 6 && Good(MixerOf(box, tk, ta), rx) && k < |fs|
    requires forall f <- fs :: f.icvOk ==> f.micOk
    ensures var mix := MixerOf(box, tk, ta);
            Used(mix, ReceiveAll(mix, rx, fs[..k]), fs[k].tsc) == Phase1(box, tk, ta, Iv32(fs[k].tsc))
  {
    hide Used; hide Good; hide ReceiveAll; hide Phase1; hide Iv32;
    GoodSoFar(box, tk, ta, rx, fs, k);
    UsedExactly(MixerOf(box, tk, ta), ReceiveAll(MixerOf(box, tk, ta), rx, fs[..k]), fs[k].tsc);
  }

  /** A frame with a good ICV and a bad MIC from the next counter range spoils the cache for the range
      the receiver is in. */
  lemma MicFailureSpoilsCache(box: Sbox, tk: seq<byte>, ta: seq<byte>)
    requires |tk| == 16 && |ta| == 6
    ensures var mix := MixerOf(box, tk, ta);
            var rx := Receive(mix, Rx(0, true, Phase1(box, tk, ta, 0)), Frame(0x1_0000, true, false));
            Used(mix, rx, 1) != Phase1(box, tk, ta, Iv32(1))
  {
    hide Phase1;
    Phase1Injective(box, tk, ta, 0, ta, 1);
    assert Iv32(0) == 0 && Iv32(1) == 0 && Iv32(0x1_0000) == 1;
  }
}
