/** WEP on buffer chains: the loops of ieee80211_crypto_wep.c and ieee80211_crypto_tkip.c. */
module Wep {
  import opened Blocks
  import opened Ccm
  import opened Mbufs
  import opened Packets
  import R = Rc4

  /** Key setup; the state is an array that the stream goes on to permute. */
  method KeySetup(key: seq<byte>) returns (s: array<byte>)
    requires key != []
    ensures fresh(s) && s.Length == 256 && s[..] == R.Init(key).s && R.Permutation(s[..])
  {
    hide R.Identity; hide R.Swap;
    s := Numbered();
    var j: nat := 0;
    for i := 0 to 256
      invariant (s[..], j) == R.Setup(key, i)
    {
      j := (j + Value(s[i]) + Value(key[i % |key|])) % 256;
      SwapAt(s, i, j);
    }
    R.SetupPermutes(key, 256);
  }

  method Numbered() returns (s: array<byte>)
    ensures fresh(s) && s.Length == 256 && s[..] == R.Identity()
  {
    s := new byte[256](i requires 0 <= i < 256 => Byte(i));
  }

  method SwapAt(s: array<byte>, a: nat, b: nat)
    requires a < s.Length && b < s.Length
    modifies s
    ensures s[..] == R.Swap(old(s[..]), a, b)
  {
    s[a], s[b] := s[b], s[a];
  }

  /** One byte of key stream. */
  method Next(s: array<byte>, i: nat, j: nat) returns (i': nat, j': nat, k: byte)
    requires s.Length == 256 && i < 256 && j < 256
    modifies s
    ensures R.State(s[..], i', j') == R.Step(R.State(old(s[..]), i, j)) && i' < 256 && j' < 256
    ensures k == R.Output(R.State(s[..], i', j'))
  {
    hide R.Swap; hide Value;
    i' := (i + 1) % 256;
    j' := (j + Value(s[i'])) % 256;
    SwapAt(s, i', j');
    k := s[(Value(s[i']) + Value(s[j'])) % 256];
  }

  /** The data the integrity value covers: the plaintext, on either side. */
  function Covered(decrypt: bool, st: R.State, data: seq<byte>): seq<byte>
    requires R.Ok(st)
  {
    if decrypt then R.Crypt(st, data) else data
  }

  lemma NextCrypt(st: R.State, d: seq<byte>, k: nat)
    requires R.Ok(st) && k < |d|
    ensures R.After(st, k + 1) == R.Step(R.After(st, k))
    ensures R.Crypt(st, d[..k + 1]) == R.Crypt(st, d[..k]) + [XorByte(d[k], R.Output(R.After(st, k + 1)))]
  {
    hide XorByte; hide R.Step; hide R.Output;
    assert d[..k + 1] == d[..k] + [d[k]];
  }

  lemma NextCrc(table: R.Table, crc: bv32, decrypt: bool, st: R.State, d: seq<byte>, k: nat)
    requires R.Ok(st) && k < |d|
    ensures var x := XorByte(d[k], R.Output(R.After(st, k + 1)));
            R.Crc(table, crc, Covered(decrypt, st, d[..k + 1]))
            == R.CrcByte(table, R.Crc(table, crc, Covered(decrypt, st, d[..k])), if decrypt then x else d[k])
  {
    hide XorByte; hide R.CrcByte; hide R.Output; hide R.Crc; hide R.After; hide R.Crypt;
    assert d[..k + 1] == d[..k] + [d[k]];
    NextCrypt(st, d, k);
    CrcSnoc(table, crc, Covered(decrypt, st, d[..k]),
            if decrypt then XorByte(d[k], R.Output(R.After(st, k + 1))) else d[k]);
  }

  lemma CrcSnoc(table: R.Table, crc: bv32, d: seq<byte>, x: byte)
    ensures R.Crc(table, crc, d + [x]) == R.CrcByte(table, R.Crc(table, crc, d), x)
  {
    hide R.CrcByte;
    assert (d + [x])[..|d|] == d;
  }

  /** The inner loop: n bytes from a[p] on, in place. */
  method CryptSegment(table: R.Table, decrypt: bool, s: array<byte>, i0: nat, j0: nat, crc0: bv32,
                      a: array<byte>, p: nat, n: nat) returns (i: nat, j: nat, crc: bv32)
    requires s.Length == 256 && i0 < 256 && j0 < 256 && a != s && p + n <= a.Length
    modifies s, a
    ensures i < 256 && j < 256
    ensures var st, d := R.State(old(s[..]), i0, j0), old(a[p..p + n]);
            && R.State(s[..], i, j) == R.After(st, n)
            && a[..] == Splice(old(a[..]), p, R.Crypt(st, d))
            && crc == R.Crc(table, crc0, Covered(decrypt, st, d))
    ensures a[p + n..] == old(a[p + n..])
  {
    hide R.After; hide R.Crypt; hide R.Crc; hide Splice; hide R.CrcByte; hide R.Step; hide R.Output; hide XorByte;
    ghost var st, a0, d := R.State(s[..], i0, j0), a[..], a[p..p + n];
    i, j, crc := i0, j0, crc0;
    NoBytes(table, crc0, decrypt, st, a0, p);
    for k := 0 to n
      invariant i < 256 && j < 256 && R.State(s[..], i, j) == R.After(st, k)
      invariant a[..] == Splice(a0, p, R.Crypt(st, d[..k]))
      invariant crc == R.Crc(table, crc0, Covered(decrypt, st, d[..k]))
    {
      NextCrypt(st, d, k);
      NextCrc(table, crc0, decrypt, st, d, k);
      Unwritten(a0, p, R.Crypt(st, d[..k]));
      assert a[p + k] == d[k];
      if !decrypt {
        crc := R.CrcByte(table, crc, a[p + k]);
      }
      var x: byte;
      i, j, x := Next(s, i, j);
      PutAt(a, p + k, XorByte(a[p + k], x));
      SpliceNext(a0, p, R.Crypt(st, d[..k]), [a[p + k]]);
      if decrypt {
        crc := R.CrcByte(table, crc, a[p + k]);
      }
    }
    assert d[..n] == d;
    TailKept(a, a0, p, R.Crypt(st, d));
  }

  method PutAt(a: array<byte>, p: nat, x: byte)
    requires p < a.Length
    modifies a
    ensures a[..] == Splice(old(a[..]), p, [x]) && a[p] == x
  {
    a[p] := x;
  }

  lemma Unwritten(a0: seq<byte>, p: nat, done: seq<byte>)
    requires p + |done| < |a0|
    ensures Splice(a0, p, done)[p + |done|] == a0[p + |done|]
  {
  }

  lemma NoBytes(table: R.Table, crc: bv32, decrypt: bool, st: R.State, a0: seq<byte>, p: nat)
    requires R.Ok(st) && p <= |a0|
    ensures R.After(st, 0) == st && Splice(a0, p, R.Crypt(st, [])) == a0
    ensures R.Crc(table, crc, Covered(decrypt, st, [])) == crc
  {
    assert R.Crypt(st, []) == [];
  }

  lemma {:induction false} CrcConcat(table: R.Table, crc: bv32, a: seq<byte>, b: seq<byte>)
    ensures R.Crc(table, crc, a + b) == R.Crc(table, R.Crc(table, crc, a), b)
    decreases b
  {
    hide R.CrcByte;
    if b == [] {
      assert a + b == a;
    } else {
      assert (a + b)[..|a + b| - 1] == a + b[..|b| - 1];
      CrcConcat(table, crc, a, b[..|b| - 1]);
    }
  }

  /** After r bytes from position off were handled, handling the next w is handling r + w. */
  lemma NextPiece(table: R.Table, crc: bv32, decrypt: bool, st: R.State, f: seq<byte>, off: nat, r: nat, w: nat)
    requires R.Ok(st) && off + r + w <= |f|
    ensures var cur := Splice(f, off, R.Crypt(st, f[off..off + r]));
            var st' := R.After(st, r);
            && cur[off + r..off + r + w] == f[off + r..off + r + w]
            && R.After(st', w) == R.After(st, r + w)
            && Splice(cur, off + r, R.Crypt(st', f[off + r..off + r + w])) ==
               Splice(f, off, R.Crypt(st, f[off..off + r + w]))
            && R.Crc(table, R.Crc(table, crc, Covered(decrypt, st, f[off..off + r])),
                     Covered(decrypt, st', f[off + r..off + r + w]))
               == R.Crc(table, crc, Covered(decrypt, st, f[off..off + r + w]))
  {
    hide R.Crypt; hide R.After; hide R.Crc;
    var a, b := f[off..off + r], f[off + r..off + r + w];
    assert f[off..off + r + w] == a + b;
    R.AfterAfter(st, r, w);
    R.CryptConcat(st, a, b);
    CrcConcat(table, crc, Covered(decrypt, st, a), Covered(decrypt, R.After(st, r), b));
  }

  /** One segment of the chain; the others keep their bytes. */
  method CryptStorage(table: R.Table, decrypt: bool, s: array<byte>, i0: nat, j0: nat, crc0: bv32,
                      ms: seq<Mbuf>, k: nat, p: nat, n: nat) returns (i: nat, j: nat, crc: bv32)
    requires s.Length == 256 && i0 < 256 && j0 < 256 && Chain(ms) && s !in Storage(ms) && k < |ms|
             && p + n <= ms[k].data.Length
    modifies s, ms[k].data
    ensures i < 256 && j < 256 && |Segs(ms)| == |ms|
    ensures var st, d := R.State(old(s[..]), i0, j0), old(ms[k].data[p..p + n]);
            && R.State(s[..], i, j) == R.After(st, n)
            && ms[k].data[..] == Splice(old(ms[k].data[..]), p, R.Crypt(st, d))
            && crc == R.Crc(table, crc0, Covered(decrypt, st, d))
    ensures ms[k].data[p + n..] == old(ms[k].data[p + n..])
    ensures forall i :: 0 <= i < |ms| && i != k ==> ms[i].Bytes() == old(Segs(ms))[i]
  {
    hide R.After; hide R.Crypt; hide R.Crc; hide Splice; hide Segs; hide Covered;
    assert forall i :: 0 <= i < |ms| ==> ms[i].data in Storage(ms);
    i, j, crc := CryptSegment(table, decrypt, s, i0, j0, crc0, ms[k].data, p, n);
  }

  /** One segment of the chain. */
  method CryptMbuf(table: R.Table, decrypt: bool, s: array<byte>, i0: nat, j0: nat, crc0: bv32,
                   ms: seq<Mbuf>, k: nat, o: nat, n: nat) returns (i: nat, j: nat, crc: bv32)
    requires s.Length == 256 && i0 < 256 && j0 < 256 && Chain(ms) && s !in Storage(ms) && k < |ms| && o + n <= ms[k].len
    modifies s, ms[k].data
    ensures i < 256 && j < 256 && Before(ms, k) + o + n <= |old(Contents(ms))|
    ensures var st, at := R.State(old(s[..]), i0, j0), Before(ms, k) + o;
            var d := old(Contents(ms))[at..at + n];
            && R.State(s[..], i, j) == R.After(st, n)
            && Contents(ms) == Splice(old(Contents(ms)), at, R.Crypt(st, d))
            && crc == R.Crc(table, crc0, Covered(decrypt, st, d))
    ensures var end := ms[k].off + o + n; ms[k].data[end..] == old(ms[k].data[end..])
  {
    hide R.After; hide R.Crypt; hide R.Crc; hide Splice; hide Segs; hide Flat; hide Before; hide Covered;
    BytesWithin(ms, k, o, n);
    var p := ms[k].off + o;
    ghost var f, ss, d, x := Contents(ms), Segs(ms), ms[k].data[..], ms[k].data[p..p + n];
    ghost var st := R.State(s[..], i0, j0);
    assert ss[k] == d[ms[k].off..ms[k].off + ms[k].len];
    i, j, crc := CryptStorage(table, decrypt, s, i0, j0, crc0, ms, k, p, n);
    WroteData(ms, ss, k, o, R.Crypt(st, x), d);
    assert Contents(ms) == Splice(f, Before(ms, k) + o, R.Crypt(st, x));
  }

  lemma TailKept(a: array<byte>, d: seq<byte>, p: nat, r: seq<byte>)
    requires p + |r| <= |d| && a[..] == Splice(d, p, r)
    ensures a[p + |r|..] == d[p + |r|..]
  {
    SpliceAt(d, p, r);
    assert a[p + |r|..] == a[..][p + |r|..];
  }

  /** r bytes of f from position off on were handled, starting from st: what the loop then holds. */
  ghost predicate Handled(table: R.Table, decrypt: bool, st: R.State, f: seq<byte>, off: nat, r: nat,
                          t: R.State, cur: seq<byte>, crc: bv32)
    requires R.Ok(st) && off + r <= |f|
  {
    && t == R.After(st, r)
    && cur == Splice(f, off, R.Crypt(st, f[off..off + r]))
    && crc == R.Crc(table, 0xFFFF_FFFF, Covered(decrypt, st, f[off..off + r]))
  }

  lemma HandledNone(table: R.Table, decrypt: bool, st: R.State, f: seq<byte>, off: nat)
    requires R.Ok(st) && off <= |f|
    ensures Handled(table, decrypt, st, f, off, 0, st, f, 0xFFFF_FFFF)
  {
    hide R.After; hide R.Crypt; hide R.Crc;
    NoBytes(table, 0xFFFF_FFFF, decrypt, st, f, off);
    assert f[off..off + 0] == [];
  }

  lemma HandledNext(table: R.Table, decrypt: bool, st: R.State, f: seq<byte>, off: nat, r: nat,
                    t: R.State, cur: seq<byte>, crc: bv32, at: nat, w: nat)
    requires R.Ok(st) && off + r + w <= |f| && Handled(table, decrypt, st, f, off, r, t, cur, crc)
    requires at + w <= |f| && (w > 0 ==> at == off + r)
    ensures var d := cur[at..at + w];
            Handled(table, decrypt, st, f, off, r + w,
                    R.After(t, w), Splice(cur, at, R.Crypt(t, d)), R.Crc(table, crc, Covered(decrypt, t, d)))
  {
    hide R.After; hide R.Crypt; hide R.Crc; hide Covered; hide Splice;
    if w == 0 {
      NoBytes(table, crc, decrypt, t, cur, at);
      assert cur[at..at + w] == [];
    } else {
      NextPiece(table, 0xFFFF_FFFF, decrypt, st, f, off, r, w);
    }
  }

  /** Where the loop over the chain stops within the last buffer. */
  ghost function StopsAt(ms: seq<Mbuf>, end: nat): nat
    requires ms != []
    reads ms
  {
    var base := Before(ms, |ms| - 1);
    ms[|ms| - 1].off + (if end >= base then end - base else 0)
  }

  /** One turn of the loop: r bytes were handled, and n more are. */
  method CryptNext(table: R.Table, decrypt: bool, s: array<byte>, i0: nat, j0: nat, crc0: bv32,
                   ms: seq<Mbuf>, k: nat, o: nat, n: nat,
                   ghost st: R.State, ghost f: seq<byte>, ghost off: nat, ghost r: nat)
    returns (i: nat, j: nat, crc: bv32)
    requires s.Length == 256 && i0 < 256 && j0 < 256 && Chain(ms) && s !in Storage(ms) && k < |ms| && o + n <= ms[k].len
    requires R.Ok(st) && |Contents(ms)| == |f| && off + r + n <= |f| && (n > 0 ==> Before(ms, k) + o == off + r)
    requires Handled(table, decrypt, st, f, off, r, R.State(s[..], i0, j0), Contents(ms), crc0)
    modifies s, ms[k].data
    ensures i < 256 && j < 256 && |Contents(ms)| == |f|
    ensures Handled(table, decrypt, st, f, off, r + n, R.State(s[..], i, j), Contents(ms), crc)
    ensures var end := ms[k].off + o + n; ms[k].data[end..] == old(ms[k].data[end..])
  {
    hide R.After; hide R.Crypt; hide R.Crc; hide Splice; hide Contents; hide Before; hide Covered; hide Handled;
    BytesWithin(ms, k, o, n);
    HandledNext(table, decrypt, st, f, off, r, R.State(s[..], i0, j0), Contents(ms), crc0, Before(ms, k) + o, n);
    i, j, crc := CryptMbuf(table, decrypt, s, i0, j0, crc0, ms, k, o, n);
  }

  /** In the last buffer, at most n bytes of it were left. */
  lemma StopsHere(ms: seq<Mbuf>, o: nat, n: nat, left: nat, end: nat)
    requires Chain(ms) && ms != [] && o + n <= ms[|ms| - 1].len && end <= |Contents(ms)|
    requires var at := Before(ms, |ms| - 1) + o + n;
             if left + n > 0 then at == end - left && (left > 0 ==> o + n == ms[|ms| - 1].len)
             else at == end || (at > end && o == 0)
    ensures left == 0 && StopsAt(ms, end) == ms[|ms| - 1].off + o + n
  {
    hide Contents;
    BeforeAll(ms);
  }

  /** The loop over the chain: len bytes from byte `off` on, then whatever is left is skipped. */
  method CryptLoop(table: R.Table, decrypt: bool, s: array<byte>, ms: seq<Mbuf>, off: nat, len: nat)
    returns (i: nat, j: nat, crc: bv32, pos: nat)
    requires s.Length == 256 && Chain(ms) && s !in Storage(ms) && ms != [] && off <= ms[0].len
    requires off + len <= |Contents(ms)|
    modifies s, Storage(ms)
    ensures i < 256 && j < 256 && pos == StopsAt(ms, off + len)
    ensures Handled(table, decrypt, R.State(old(s[..]), 0, 0), old(Contents(ms)), off, len,
                    R.State(s[..], i, j), Contents(ms), crc)
    ensures var a := ms[|ms| - 1].data; pos <= a.Length && a[pos..] == old(a[pos..])
  {
    hide R.After; hide R.Crypt; hide R.Crc; hide Splice; hide Contents; hide Before; hide Covered; hide Handled;
    hide StopsAt;
    ghost var f, st := Contents(ms), R.State(s[..], 0, 0);
    ghost var a := ms[|ms| - 1].data;
    ghost var d := a[..];
    i, j, crc := 0, 0, 0xFFFF_FFFF;
    var k: nat, o: nat, left: nat := 0, off, len;
    HandledNone(table, decrypt, st, f, off);
    BeforeAll(ms);
    while true
      invariant k < |ms| && o <= ms[k].len && left <= len && i < 256 && j < 256 && (if k > 0 then o == 0 else o == off)
      invariant if left > 0 then Before(ms, k) + o == off + (len - left) else Before(ms, k) + o >= off + len
      invariant |Contents(ms)| == |f| && a[..] == d
      invariant Handled(table, decrypt, st, f, off, len - left, R.State(s[..], i, j), Contents(ms), crc)
      decreases |ms| - k
    {
      var n := if ms[k].len - o > left then left else ms[k].len - o;
      BytesWithin(ms, k, o, n);
      i, j, crc := CryptNext(table, decrypt, s, i, j, crc, ms, k, o, n, st, f, off, len - left);
      left := left - n;
      if k + 1 == |ms| {
        pos := ms[k].off + o + n;
        StopsHere(ms, o, n, left, off + len);
        assert left == 0; // IASSERT(data_len == 0)
        return;
      }
      k, o := k + 1, 0;
    }
  }

  /** The same, in terms of the contents. */
  method CryptChain(table: R.Table, decrypt: bool, s: array<byte>, ms: seq<Mbuf>, off: nat, len: nat)
    returns (i: nat, j: nat, crc: bv32, pos: nat)
    requires s.Length == 256 && Chain(ms) && s !in Storage(ms) && ms != [] && off <= ms[0].len
    requires off + len <= |Contents(ms)|
    modifies s, Storage(ms)
    ensures i < 256 && j < 256 && pos == StopsAt(ms, off + len)
    ensures var st, d := R.State(old(s[..]), 0, 0), old(Contents(ms))[off..off + len];
            && R.State(s[..], i, j) == R.After(st, len)
            && Contents(ms) == Splice(old(Contents(ms)), off, R.Crypt(st, d))
            && crc == R.Crc(table, 0xFFFF_FFFF, Covered(decrypt, st, d))
    ensures var a := ms[|ms| - 1].data; pos <= a.Length && a[pos..] == old(a[pos..])
  {
    hide R.After; hide R.Crypt; hide R.Crc; hide Splice; hide Contents; hide Before; hide Covered; hide Handled;
    hide StopsAt;
    ghost var f, st := Contents(ms), R.State(s[..], 0, 0);
    i, j, crc, pos := CryptLoop(table, decrypt, s, ms, off, len);
    HandledAll(table, decrypt, st, f, off, len, R.State(s[..], i, j), Contents(ms), crc);
  }

  lemma HandledAll(table: R.Table, decrypt: bool, st: R.State, f: seq<byte>, off: nat, r: nat,
                   t: R.State, cur: seq<byte>, crc: bv32)
    requires R.Ok(st) && off + r <= |f| && Handled(table, decrypt, st, f, off, r, t, cur, crc)
    ensures t == R.After(st, r) && cur == Splice(f, off, R.Crypt(st, f[off..off + r]))
    ensures crc == R.Crc(table, 0xFFFF_FFFF, Covered(decrypt, st, f[off..off + r]))
  {
  }

  /** The integrity value under the rest of the key stream. */
  method SealIcv(s: array<byte>, i0: nat, j0: nat, crc: bv32) returns (icv: seq<byte>)
    requires s.Length == 256 && i0 < 256 && j0 < 256
    modifies s
    ensures icv == R.Crypt(R.State(old(s[..]), i0, j0), WordBytes(!crc))
  {
    hide R.After; hide R.Crypt; hide R.Step; hide R.Output; hide WordBytes; hide XorByte;
    var v, i, j := WordBytes(!crc), i0, j0;
    ghost var st := R.State(s[..], i0, j0);
    FirstState(st, v);
    icv := [];
    for k := 0 to 4
      invariant i < 256 && j < 256 && R.State(s[..], i, j) == R.After(st, k) && icv == R.Crypt(st, v[..k])
    {
      NextCrypt(st, v, k);
      var x: byte;
      i, j, x := Next(s, i, j);
      icv := icv + [XorByte(v[k], x)];
    }
    assert v[..4] == v;
  }

  lemma FirstState(st: R.State, v: seq<byte>)
    requires R.Ok(st)
    ensures R.After(st, 0) == st && R.Crypt(st, v[..0]) == []
  {
  }

  /** The integrity value against the four bytes at a[pos], stopping at the first difference. */
  method CheckIcv(s: array<byte>, i0: nat, j0: nat, crc: bv32, a: array<byte>, pos: nat) returns (ok: bool)
    requires s.Length == 256 && i0 < 256 && j0 < 256 && a != s && pos + 4 <= a.Length
    modifies s
    ensures ok <==> Fits(R.State(old(s[..]), i0, j0), crc, a[pos..pos + 4])
  {
    hide R.After; hide R.Crypt; hide R.Step; hide R.Output; hide WordBytes; hide XorByte;
    var v, i, j := WordBytes(!crc), i0, j0;
    ghost var st := R.State(s[..], i0, j0);
    FirstState(st, v);
    for k := 0 to 4
      invariant i < 256 && j < 256 && R.State(s[..], i, j) == R.After(st, k) && a[..] == old(a[..])
      invariant a[pos..pos + k] == R.Crypt(st, v[..k])
    {
      NextCrypt(st, v, k);
      CryptPrefix(st, v, k + 1);
      var x: byte;
      i, j, x := Next(s, i, j);
      if XorByte(v[k], x) != a[pos + k] {
        assert R.Crypt(st, v)[..k + 1][k] != a[pos..pos + 4][k];
        return false;
      }
    }
    assert v[..4] == v;
    ok := true;
  }

  lemma CryptPrefix(st: R.State, v: seq<byte>, k: nat)
    requires R.Ok(st) && k <= |v|
    ensures R.Crypt(st, v[..k]) == R.Crypt(st, v)[..k]
  {
    hide R.KeyByte; hide XorByte;
  }

  lemma SealedParts(table: R.Table, key: seq<byte>, d: seq<byte>)
    requires key != []
    ensures var st := R.Init(key);
            R.Sealed(table, key, d) == R.Crypt(st, d) + R.Crypt(R.After(st, |d|), R.Icv(table, d))
  {
    hide R.Crypt; hide R.After; hide R.Icv; hide R.Init;
    R.CryptConcat(R.Init(key), d, R.Icv(table, d));
  }

  lemma SpliceTail(f: seq<byte>, off: nat, c: seq<byte>, icv: seq<byte>)
    requires off + |c| == |f|
    ensures Splice(f, off, c) + icv == f[..off] + (c + icv)
  {
  }

  /** wep_encrypt: the packet and the value to append make up the sealed data. */
  method Encrypt(table: R.Table, key: seq<byte>, p: Packet, off: nat) returns (icv: seq<byte>)
    requires key != [] && p.Valid() && off <= p.ms[0].len && off <= |p.Bytes()|
    modifies Storage(p.ms)
    ensures p.Valid() && p.Bytes() + icv == old(p.Bytes())[..off] + R.Sealed(table, key, old(p.Bytes())[off..])
  {
    hide R.After; hide R.Crypt; hide R.Crc; hide Splice; hide Contents; hide Before; hide WordBytes; hide R.Sealed;
    hide R.Setup;
    ghost var f := p.Bytes();
    ghost var d := f[off..];
    var s := KeySetup(key);
    ghost var st := R.Init(key);
    assert f[off..off + |d|] == d;
    var i, j, crc, _ := CryptChain(table, false, s, p.ms, off, p.pktlen - off);
    icv := SealIcv(s, i, j, crc);
    SealedParts(table, key, d);
    SpliceTail(f, off, R.Crypt(st, d), icv);
  }

  /** wep_encrypt, and m_append of the integrity value. */
  method EncryptAppend(table: R.Table, key: seq<byte>, p: Packet, off: nat, mbufs: nat) returns (ok: bool)
    requires key != [] && p.Valid() && off <= p.ms[0].len && off <= |p.Bytes()|
    modifies p, p.ms, Storage(p.ms)
    ensures p.Valid() && (mbufs > 0 ==> ok) && |old(p.Bytes())| <= |p.Bytes()|
    ensures var full := old(p.Bytes())[..off] + R.Sealed(table, key, old(p.Bytes())[off..]);
            p.Bytes() <= full && (ok <==> p.Bytes() == full)
  {
    hide R.Sealed; hide Contents; hide Before;
    var icv := Encrypt(table, key, p, off);
    ghost var g := p.Bytes();
    ghost var n;
    ok, n := p.Append(icv, mbufs);
    PrefixOf(g, icv, n);
  }

  lemma PrefixOf(g: seq<byte>, icv: seq<byte>, n: nat)
    requires n <= |icv|
    ensures g + icv[..n] <= g + icv && (g + icv[..n] == g + icv <==> n == |icv|)
  {
  }

  /** When the last buffer holds the whole integrity value, the loop stops right in front of it. */
  lemma StopsAtIcv(ms: seq<Mbuf>)
    requires Chain(ms) && ms != [] && ms[|ms| - 1].len >= 4
    ensures |Contents(ms)| >= 4
    ensures var m, pos := ms[|ms| - 1], StopsAt(ms, |Contents(ms)| - 4);
            pos + 4 <= m.data.Length && m.data[pos..pos + 4] == Contents(ms)[|Contents(ms)| - 4..]
  {
    hide Contents;
    var k := |ms| - 1;
    BytesWithin(ms, k, ms[k].len - 4, 4);
    BeforeAll(ms);
  }

  /** There is storage for the four bytes that the check reads. */
  ghost predicate Room(p: Packet)
    requires p.Valid() && p.pktlen >= 4
    reads p, p.ms
  {
    StopsAt(p.ms, p.pktlen - 4) + 4 <= p.ms[|p.ms| - 1].data.Length
  }

  /** The four bytes that the check reads: the end of the frame, or what the last buffer has of it and its storage. */
  ghost function IcvSeen(p: Packet, off: nat): (icv: seq<byte>)
    requires p.Valid() && off + 4 <= p.pktlen && Room(p)
    reads p, p.ms, Storage(p.ms)
    ensures |icv| == 4
  {
    var m := p.ms[|p.ms| - 1];
    assert m.data in Storage(p.ms);
    RoomBehind(p);
    R.Seen(p.Bytes()[off..], m.len, m.data[m.off + m.len..])
  }

  lemma RoomBehind(p: Packet)
    requires p.Valid() && p.pktlen >= 4 && Room(p)
    ensures var m := p.ms[|p.ms| - 1];
            m.off + m.len <= m.data.Length && (m.len < 4 ==> m.len + (m.data.Length - m.off - m.len) >= 4)
  {
  }

  /** They are where the loop stops. */
  lemma SeenIs(p: Packet, off: nat)
    requires p.Valid() && off + 4 <= p.pktlen && Room(p)
    ensures var pos := StopsAt(p.ms, p.pktlen - 4); p.ms[|p.ms| - 1].data[pos..pos + 4] == IcvSeen(p, off)
  {
    hide Contents; hide Before;
    var k, f := |p.ms| - 1, p.Bytes();
    var m := p.ms[k];
    BeforeAll(p.ms);
    BytesWithin(p.ms, k, 0, m.len);
    if m.len >= 4 {
      StopsAtIcv(p.ms);
      assert f[off..][|f| - off - 4..] == f[|f| - 4..];
    } else {
      assert f[|f| - m.len..|f|] == f[|f| - m.len..] == f[off..][|f| - off - m.len..];
      assert m.data[m.off..m.off + 4] == m.data[m.off..m.off + m.len] + m.data[m.off + m.len..][..4 - m.len];
    }
  }

  lemma InitStart(key: seq<byte>)
    requires key != []
    ensures R.Init(key) == R.State(R.Init(key).s, 0, 0)
  {
  }

  lemma SpliceIs(f: seq<byte>, off: nat, b: seq<byte>)
    requires off + |b| <= |f|
    ensures Splice(f, off, b) == f[..off] + b + f[off + |b|..]
  {
  }

  /** The integrity value of a finished checksum, as the stream sends it. */
  ghost predicate Fits(st: R.State, crc: bv32, icv: seq<byte>)
    requires R.Ok(st)
  {
    R.Crypt(st, WordBytes(!crc)) == icv
  }

  /** The receiver's view of the sealed part of a frame. */
  lemma OpenedIs(table: R.Table, key: seq<byte>, f: seq<byte>, off: nat, icv: seq<byte>)
    requires key != [] && off + 4 <= |f|
    ensures var n, st := |f| - 4 - off, R.Init(key);
            var data := R.Crypt(st, f[off..off + n]);
            && R.Opened(table, key, f[off..]).0 == data
            && (R.Accepts(table, key, f[off..], icv) <==> Fits(R.After(st, n), R.Crc(table, 0xFFFF_FFFF, data), icv))
  {
    hide Fits; hide R.Opened; hide R.Accepts;
    var n := |f| - 4 - off;
    assert f[off..][..n] == f[off..off + n];
    OpenedParts(table, key, f[off..], f[off..off + n], icv);
  }

  lemma OpenedParts(table: R.Table, key: seq<byte>, c: seq<byte>, d: seq<byte>, icv: seq<byte>)
    requires key != [] && |c| >= 4 && c[..|c| - 4] == d
    ensures var data := R.Crypt(R.Init(key), d);
            && R.Opened(table, key, c).0 == data
            && (R.Accepts(table, key, c, icv) <==>
                  Fits(R.After(R.Init(key), |d|), R.Crc(table, 0xFFFF_FFFF, data), icv))
  {
    hide R.After; hide R.Crypt; hide R.Crc; hide WordBytes; hide R.Init;
  }

  /** wep_decrypt, up to the check: the data is in place, and pos is where the integrity value is looked for. */
  method DecryptBody(table: R.Table, key: seq<byte>, p: Packet, off: nat)
    returns (s: array<byte>, i: nat, j: nat, crc: bv32, pos: nat)
    requires key != [] && p.Valid() && off <= p.ms[0].len && off + 4 <= |p.Bytes()| && Room(p)
    modifies Storage(p.ms)
    ensures p.Valid() && fresh(s) && s.Length == 256 && i < 256 && j < 256
    ensures var a := p.ms[|p.ms| - 1].data; pos + 4 <= a.Length && a[pos..pos + 4] == old(IcvSeen(p, off))
    ensures var f, st := old(p.Bytes()), R.Init(key);
            var n := |f| - 4 - off;
            var data := R.Crypt(st, f[off..off + n]);
            && p.Bytes() == f[..off] + data + f[|f| - 4..]
            && R.State(s[..], i, j) == R.After(st, n) && crc == R.Crc(table, 0xFFFF_FFFF, data)
  {
    hide R.After; hide R.Crypt; hide R.Crc; hide Splice; hide Contents; hide Before; hide R.Init; hide StopsAt;
    hide R.Permutation;
    hide IcvSeen;
    ghost var f := p.Bytes();
    ghost var seen := IcvSeen(p, off);
    ghost var a := p.ms[|p.ms| - 1].data;
    ghost var d := a[..];
    var n := p.pktlen - off - 4;
    InitStart(key);
    SeenIs(p, off);
    s := KeySetup(key);
    i, j, crc, pos := CryptChain(table, true, s, p.ms, off, n);
    SpliceIs(f, off, R.Crypt(R.Init(key), f[off..off + n]));
    SameFour(a, d, pos);
  }

  lemma SameFour(a: array<byte>, d: seq<byte>, pos: nat)
    requires |d| == a.Length && pos + 4 <= |d| && a[pos..] == d[pos..]
    ensures a[pos..pos + 4] == d[pos..pos + 4]
  {
    assert a[pos..pos + 4] == a[pos..][..4] && d[pos..pos + 4] == d[pos..][..4];
  }

  /** The check, against the storage of the last buffer. */
  method CheckLast(s: array<byte>, i: nat, j: nat, crc: bv32, ms: seq<Mbuf>, pos: nat) returns (ok: bool)
    requires Chain(ms) && ms != [] && s.Length == 256 && i < 256 && j < 256 && s !in Storage(ms)
    requires pos + 4 <= ms[|ms| - 1].data.Length
    modifies s
    ensures Contents(ms) == old(Contents(ms))
    ensures ok <==> Fits(R.State(old(s[..]), i, j), crc, old(ms[|ms| - 1].data[pos..pos + 4]))
  {
    hide Segs; hide Flat; hide Fits;
    ghost var ss := Segs(ms);
    var a := ms[|ms| - 1].data;
    assert a in Storage(ms);
    ghost var v := a[pos..pos + 4];
    ok := CheckIcv(s, i, j, crc, a, pos);
    assert a[pos..pos + 4] == v;
    assert Segs(ms) == ss;
  }

  /** wep_decrypt: the data is in place, and the verdict is about the four bytes that the check sees. */
  method Decrypt(table: R.Table, key: seq<byte>, p: Packet, off: nat) returns (ok: bool)
    requires key != [] && p.Valid() && off <= p.ms[0].len && off + 4 <= |p.Bytes()| && Room(p)
    modifies Storage(p.ms)
    ensures p.Valid()
    ensures var f := old(p.Bytes()); p.Bytes() == f[..off] + R.Opened(table, key, f[off..]).0 + f[|f| - 4..]
    ensures ok <==> R.Accepts(table, key, old(p.Bytes())[off..], old(IcvSeen(p, off)))
  {
    hide R.After; hide R.Crypt; hide R.Crc; hide Contents; hide Before; hide WordBytes; hide R.Init; hide StopsAt;
    hide R.Opened;
    hide R.Accepts; hide Fits; hide IcvSeen; hide Room;
    OpenedIs(table, key, p.Bytes(), off, IcvSeen(p, off));
    var s, i, j, crc, pos := DecryptBody(table, key, p, off);
    ok := CheckLast(s, i, j, crc, p.ms, pos);
  }

  /** A sealed frame in a chain is accepted exactly when the four bytes that the check sees are its last four. */
  lemma SealedInChain(table: R.Table, key: seq<byte>, data: seq<byte>, p: Packet, off: nat)
    requires key != [] && p.Valid() && off + 4 <= p.pktlen && Room(p) && p.Bytes()[off..] == R.Sealed(table, key, data)
    ensures R.Opened(table, key, p.Bytes()[off..]).1
    ensures R.Accepts(table, key, p.Bytes()[off..], IcvSeen(p, off)) <==> IcvSeen(p, off) == p.Bytes()[p.pktlen - 4..]
  {
    hide R.Sealed; hide R.Crypt; hide R.Icv; hide R.After; hide R.Init; hide IcvSeen; hide Contents; hide Before;
    var f := p.Bytes();
    R.RoundTrip(table, key, data);
    assert f[off..][|f| - off - 4..] == f[|f| - 4..];
  }

  /** A packet of two buffers, with `behind` in the storage after the second. */
  method TwoBuffers(a: seq<byte>, b: seq<byte>, behind: seq<byte>) returns (p: Packet)
    ensures fresh(p) && p.Valid() && |p.ms| == 2 && p.Bytes() == a + b && p.ms[0].len == |a|
    ensures p.ms[1].off == 0 && p.ms[1].len == |b| && p.ms[1].data[..] == b + behind
  {
    hide Segs; hide Flat; hide Before;
    var m := FilledMbuf(a, []);
    p := PacketOf(m);
    ghost var ss := Segs(p.ms);
    var n := FilledMbuf(b, behind);
    assert Segs(p.ms) == ss;
    p.Link(n);
  }

  /** Such a chain: the second buffer holds two bytes of the integrity value, and another byte follows them. The frame
      was sealed under the same key, yet wep_decrypt refuses it. */
  method Straddling(table: R.Table, key: seq<byte>, data: seq<byte>) returns (p: Packet)
    requires key != []
    ensures fresh(p) && p.Valid() && p.Bytes() == R.Sealed(table, key, data) && Room(p)
    ensures R.Opened(table, key, p.Bytes()).1 && !R.Accepts(table, key, p.Bytes(), IcvSeen(p, 0))
  {
    hide R.Sealed; hide R.Opened; hide R.Accepts; hide R.Other; hide Contents; hide Before;
    var c := R.Sealed(table, key, data);
    var n := |c| - 2;
    p := TwoBuffers(c[..n], c[n..], [R.Other(c[n]), 0]);
    assert c[..n] + c[n..] == c == c[0..];
    ghost var m := p.ms[1];
    assert m.data[m.off + m.len..] == (c[n..] + [R.Other(c[n]), 0])[2..] == [R.Other(c[n]), 0];
    TwoStop(p);
    SealedInChain(table, key, data, p, 0);
    assert IcvSeen(p, 0)[2] != c[|c| - 4..][2];
  }

  lemma TwoStop(p: Packet)
    requires p.Valid() && |p.ms| == 2 && p.pktlen >= 4 && p.ms[1].len == 2
    ensures Room(p) <==> p.ms[1].off + 4 <= p.ms[1].data.Length
  {
    assert Before(p.ms, 1) == p.ms[0].len;
  }
}
