/** Numbers as little-endian bytes. */
module LittleEndian {
  import opened Blocks
  import opened Ccm

  /** The low k bytes of n, lowest first. */
  function LeBytes(n: nat, k: nat): (s: seq<byte>)
    ensures |s| == k
  {
    if k == 0 then [] else [Byte(n)] + LeBytes(n / 256, k - 1)
  }

  function LeValue(s: seq<byte>): nat {
    if s == [] then 0 else Value(s[0]) + 256 * LeValue(s[1..])
  }

  function Pow256(k: nat): (m: nat)
    ensures m > 0
  {
    if k == 0 then 1 else 256 * Pow256(k - 1)
  }

  lemma ModSplit(n: nat, m: nat)
    requires m > 0
    ensures n % 256 + 256 * ((n / 256) % m) == n % (256 * m)
  {
    var q, r := n / 256 / m, (n / 256) % m;
    assert n / 256 == m * q + r;
    var low := n % 256 + 256 * r;
    assert n == (256 * m) * q + low by {
      assert 256 * (m * q) == (256 * m) * q;
    }
    assert 0 <= low < 256 * m;
    DivModUnique(n, 256 * m, q, low);
  }

  lemma {:induction false} NextMultiple(m: nat, q: nat, q': nat)
    requires q < q'
    ensures m * q + m <= m * q'
  {
    if q + 1 == q' {
      assert m * (q + 1) == m * q + m;
    } else {
      NextMultiple(m, q, q' - 1);
      assert m * (q' - 1) == m * q' - m;
    }
  }

  lemma NoLessQuotient(m: nat, q: nat, r: nat, q': nat, r': nat)
    requires m * q + r == m * q' + r' && r < m && r' < m
    ensures q' <= q
  {
    if q < q' {
      NextMultiple(m, q, q');
    }
  }

  lemma DivModUnique(n: nat, m: nat, q: nat, r: nat)
    requires n == m * q + r && r < m
    ensures n % m == r && n / m == q
  {
    NoLessQuotient(m, q, r, n / m, n % m);
    NoLessQuotient(m, n / m, n % m, q, r);
  }

  lemma {:induction false} ValueOfBytes(n: nat, k: nat)
    ensures LeValue(LeBytes(n, k)) == n % Pow256(k)
  {
    hide Byte; hide Value;
    if k > 0 {
      var s := LeBytes(n, k);
      assert s[1..] == LeBytes(n / 256, k - 1);
      ValueOfBytes(n / 256, k - 1);
      ModSplit(n, Pow256(k - 1));
      ValueOfByte(n);
    }
  }

  lemma ValueOfByte(n: nat)
    ensures Value(Byte(n)) == n % 256
  {
    hide Byte;
    ByteValue(n);
  }

  lemma SameValue(a: byte, b: byte)
    requires Value(a) == Value(b)
    ensures a == b
  {
  }

  lemma {:induction false} BytesOfValue(s: seq<byte>)
    ensures LeBytes(LeValue(s), |s|) == s
  {
    hide Byte; hide Value;
    if s != [] {
      var n := LeValue(s);
      BytesOfValue(s[1..]);
      DivModUnique(n, 256, LeValue(s[1..]), Value(s[0]));
      ValueOfByte(n);
      SameValue(Byte(n), s[0]);
    }
  }

  /** Only n modulo 256^k matters for the low k bytes. */
  lemma BytesOfMod(n: nat, k: nat)
    ensures LeBytes(n % Pow256(k), k) == LeBytes(n, k)
  {
    ValueOfBytes(n, k);
    BytesOfValue(LeBytes(n, k));
  }

  lemma {:induction false} ValueBound(s: seq<byte>)
    ensures LeValue(s) < Pow256(|s|)
  {
    if s != [] {
      ValueBound(s[1..]);
    }
  }

  lemma ValueOfOne()
    ensures LeValue([1, 0, 0, 0, 0, 0]) == 1
  {
    var s: seq<byte> := [1, 0, 0, 0, 0, 0];
    assert s[1..] == [0, 0, 0, 0, 0] && s[1..][1..] == [0, 0, 0, 0] && s[1..][1..][1..] == [0, 0, 0];
    var t: seq<byte> := [0, 0, 0];
    assert t[1..] == [0, 0] && t[1..][1..] == [0] && t[1..][1..][1..] == [];
    assert Value(0) == 0 && Value(1) == 1;
  }
}
