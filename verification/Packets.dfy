/** Packets: a buffer chain and its total length, with the operations that grow and trim it. */
module Packets {
  import opened Blocks
  import opened Mbufs

  /** The storage of one plain mbuf. */
  const MLEN: nat := 224

  lemma FlatSnoc(ss: seq<seq<byte>>, s: seq<byte>)
    ensures Flat(ss + [s]) == Flat(ss) + s
  {
    hide Flat;
    FlatConcat(ss, [s]);
    FlatOne(s);
  }

  lemma LastApart<T>(s: seq<T>)
    requires s != []
    ensures s == s[..|s| - 1] + [s[|s| - 1]]
  {
  }

  /** The last segment grew by x. */
  lemma FlatGrown(ss: seq<seq<byte>>, tt: seq<seq<byte>>, x: seq<byte>)
    requires |ss| == |tt| > 0 && ss[..|ss| - 1] == tt[..|ss| - 1] && tt[|ss| - 1] == ss[|ss| - 1] + x
    ensures Flat(tt) == Flat(ss) + x
  {
    hide Flat;
    var n := |ss| - 1;
    LastApart(ss);
    LastApart(tt);
    FlatSnoc(ss[..n], ss[n]);
    FlatSnoc(tt[..n], tt[n]);
  }

  lemma {:induction false} FlatEmpty(ss: seq<seq<byte>>)
    requires forall i :: 0 <= i < |ss| ==> ss[i] == []
    ensures Flat(ss) == []
  {
    if ss != [] {
      FlatEmpty(ss[1..]);
    }
  }

  /** s from position n on; nothing when it is shorter. */
  function From(s: seq<byte>, n: nat): seq<byte> { if n < |s| then s[n..] else [] }

  /** s up to position |s| - n; nothing when it is shorter. */
  function Without(s: seq<byte>, n: nat): seq<byte> { if n < |s| then s[..|s| - n] else [] }

  lemma WithoutIsPrefix(s: seq<byte>, n: nat)
    ensures Without(s, n) == s[..if |s| > n then |s| - n else 0]
  {
  }

  /** ss without its first k segments and c bytes of the next. */
  ghost function HeadTrimmed(ss: seq<seq<byte>>, k: nat, c: nat): (tt: seq<seq<byte>>)
    requires k <= |ss| && (if k < |ss| then c <= |ss[k]| else c == 0)
    ensures |tt| == |ss|
  {
    seq(|ss|, i requires 0 <= i < |ss| => if i < k then [] else if i == k then ss[i][c..] else ss[i])
  }

  lemma HeadTrimmedSteps(ss: seq<seq<byte>>, k: nat, c: nat)
    requires k < |ss| && c <= |ss[k]|
    ensures var tt := HeadTrimmed(ss, k, 0);
            tt[k] == ss[k] && tt[k := ss[k][c..]] == HeadTrimmed(ss, k, c)
    ensures HeadTrimmed(ss, k, |ss[k]|) == HeadTrimmed(ss, k + 1, 0)
  {
    var tt := HeadTrimmed(ss, k, 0);
    forall i | 0 <= i < |ss|
      ensures tt[k := ss[k][c..]][i] == HeadTrimmed(ss, k, c)[i]
      ensures HeadTrimmed(ss, k, |ss[k]|)[i] == HeadTrimmed(ss, k + 1, 0)[i]
    {
    }
  }

  lemma HeadTrimmedNone(ss: seq<seq<byte>>)
    ensures HeadTrimmed(ss, 0, 0) == ss
  {
  }

  lemma HeadDropped(ss: seq<seq<byte>>, k: nat, c: nat)
    requires k <= |ss| && (if k < |ss| then c <= |ss[k]| else c == 0)
    ensures |Flat(ss[..k])| + c <= |Flat(ss)| && Flat(HeadTrimmed(ss, k, c)) == Flat(ss)[|Flat(ss[..k])| + c..]
  {
    hide Flat;
    var tt := HeadTrimmed(ss, k, c);
    FlatEmpty(tt[..k]);
    if k < |ss| {
      FlatSplit(ss, k);
      FlatSplit(tt, k);
      assert tt[k + 1..] == ss[k + 1..];
    } else {
      FlatWhole(ss);
      FlatWhole(tt);
    }
  }

  lemma NextSegment(ss: seq<seq<byte>>, k: nat)
    requires k < |ss|
    ensures |Flat(ss[..k + 1])| == |Flat(ss[..k])| + |ss[k]|
  {
    hide Flat;
    assert ss[..k + 1] == ss[..k] + [ss[k]];
    FlatSnoc(ss[..k], ss[k]);
  }

  /** When the count is used up, or the segments are, the head is gone. */
  lemma HeadGone(ss: seq<seq<byte>>, k: nat, c: nat, count: nat, len: nat)
    requires k <= |ss| && (if k < |ss| then c <= |ss[k]| && len == 0 else c == 0)
    requires count == len + |Flat(ss[..k])| + c
    ensures Flat(HeadTrimmed(ss, k, c)) == From(Flat(ss), count)
  {
    hide Flat; hide HeadTrimmed;
    HeadDropped(ss, k, c);
    FlatWhole(ss);
  }

  /** The first k segments of tt hold what the first n bytes of ss have there; the rest is as in ss. */
  ghost predicate Kept(ss: seq<seq<byte>>, tt: seq<seq<byte>>, n: nat, k: nat) {
    && |tt| == |ss| && k <= |ss| && n <= |Flat(ss)| && tt[k..] == ss[k..]
    && |Flat(ss[..k])| <= |Flat(ss)|
    && Flat(tt[..k]) == Flat(ss)[..if n < |Flat(ss[..k])| then n else |Flat(ss[..k])|]
  }

  lemma KeptNone(ss: seq<seq<byte>>, n: nat)
    requires n <= |Flat(ss)|
    ensures Kept(ss, ss, n, 0)
  {
    hide Flat;
    FlatWhole(ss);
  }

  lemma KeptStep(ss: seq<seq<byte>>, tt: seq<seq<byte>>, n: nat, k: nat)
    requires Kept(ss, tt, n, k) && k < |ss|
    ensures |Flat(tt[..k])| <= n
    ensures var count := n - |Flat(tt[..k])|;
            var last := tt[k][..if |tt[k]| > count then count else |tt[k]|];
            var uu := tt[k := last];
            Kept(ss, uu, n, k + 1) && Flat(uu[..k + 1]) == Flat(tt[..k]) + last
  {
    hide Flat;
    var count := n - |Flat(tt[..k])|;
    var uu := tt[k := tt[k][..if |tt[k]| > count then count else |tt[k]|]];
    assert tt[k] == tt[k..][0] == ss[k];
    assert uu[..k] == tt[..k] && uu[k + 1..] == tt[k..][1..] == ss[k + 1..];
    FlatSplit(ss, k);
    FlatSplit(uu, k);
  }

  lemma KeptAll(ss: seq<seq<byte>>, tt: seq<seq<byte>>, n: nat)
    requires Kept(ss, tt, n, |ss|)
    ensures Flat(tt) == Flat(ss)[..n]
  {
    hide Flat;
    FlatWhole(ss);
    FlatWhole(tt);
  }

  lemma SpliceParts(f: seq<byte>, off: nat, b: seq<byte>)
    requires off + |b| <= |f|
    ensures var g := Splice(f, off, b);
            && g[..off] == f[..off] && g[off + |b|..] == f[off + |b|..] && g[..off + |b|] == f[..off] + b
            && g == f[..off] + b + f[off + |b|..] && forall i :: 0 <= i < off ==> g[i] == f[i]
  {
  }

  lemma Stripped(f: seq<byte>, hdrlen: nat, header: nat, trailer: nat)
    requires hdrlen + header + trailer <= |f|
    ensures Without(From(Splice(f, header, f[..hdrlen]), header), trailer) ==
            f[..hdrlen] + f[hdrlen + header..|f| - trailer]
  {
    hide Splice;
    SpliceParts(f, header, f[..hdrlen]);
    var s := Splice(f, header, f[..hdrlen]);
    assert s[header..] == f[..hdrlen] + f[hdrlen + header..];
  }

  /** Stripping both ends of an opened frame leaves the header and the data. */
  lemma StripOpened(f: seq<byte>, hdrlen: nat, header: nat, data: seq<byte>, tail: seq<byte>)
    requires hdrlen + header <= |f|
    ensures var g := f[..hdrlen + header] + data + tail;
            g[..hdrlen] + g[hdrlen + header..|g| - |tail|] == f[..hdrlen] + data
  {
  }

  /** memmove of cp to a[p..]. */
  method CopyIn(a: array<byte>, p: nat, cp: seq<byte>)
    requires p + |cp| <= a.Length
    modifies a
    ensures a[..] == Splice(old(a[..]), p, cp)
  {
    for j := 0 to |cp|
      invariant forall k :: 0 <= k < a.Length ==> a[k] == if p <= k < p + j then cp[k - p] else old(a[k])
    {
      a[p + j] := cp[j];
    }
  }

  method NewMbuf(cp: seq<byte>) returns (m: Mbuf)
    requires |cp| <= MLEN
    ensures fresh(m) && fresh(m.data) && m.InBounds() && m.Bytes() == cp
  {
    m := new Mbuf(MLEN);
    CopyIn(m.data, 0, cp);
    m.len := |cp|;
  }

  /** A buffer that holds cp, with `behind` in the storage that follows. */
  method FilledMbuf(cp: seq<byte>, behind: seq<byte>) returns (m: Mbuf)
    ensures fresh(m) && fresh(m.data) && m.InBounds() && m.off == 0 && m.len == |cp|
    ensures m.Bytes() == cp && m.data[..] == cp + behind
  {
    hide Splice;
    m := new Mbuf(|cp + behind|);
    ghost var d := m.data[..];
    CopyIn(m.data, 0, cp + behind);
    SpliceAt(d, 0, cp + behind);
    m.len := |cp|;
    assert m.data[..] == m.data[..][0..0 + |cp + behind|] == cp + behind;
    assert m.Bytes() == (cp + behind)[..|cp|];
  }

  /** A packet of one buffer. */
  method PacketOf(m: Mbuf) returns (p: Packet)
    requires m.InBounds()
    ensures fresh(p) && p.ms == [m] && p.Valid() && p.Bytes() == m.Bytes()
  {
    p := new Packet;
    p.ms, p.pktlen := [m], m.len;
    assert Before([m], 0) == 0 && Before([m], 1) == m.len;
    assert Segs([m]) == [m.Bytes()] && Flat([m.Bytes()]) == m.Bytes();
  }

  lemma ChainSnoc(ms: seq<Mbuf>, m: Mbuf)
    requires Chain(ms) && m.InBounds() && m !in ms && m.data !in Storage(ms)
    ensures Chain(ms + [m]) && Contents(ms + [m]) == Contents(ms) + m.Bytes()
  {
    hide Segs; hide Flat;
    assert forall i :: 0 <= i < |ms| ==> ms[i].data in Storage(ms);
    assert Segs(ms + [m]) == Segs(ms) + [m.Bytes()];
    FlatSnoc(Segs(ms), m.Bytes());
  }

  /** Write within the first buffer of a chain. */
  method PutFirst(ms: seq<Mbuf>, at: nat, cp: seq<byte>)
    requires Chain(ms) && ms != [] && at + |cp| <= ms[0].len
    modifies ms[0].data
    ensures at + |cp| <= |old(Contents(ms))| && Contents(ms) == Splice(old(Contents(ms)), at, cp)
  {
    hide Splice; hide Segs; hide Flat;
    ghost var ss, d := Segs(ms), ms[0].data[..];
    assert ss[0] == d[ms[0].off..ms[0].off + ms[0].len];
    CopyIn(ms[0].data, ms[0].off + at, cp);
    WroteData(ms, ss, 0, at, cp, d);
    assert Before(ms, 0) == 0;
  }

  /** The bytes of the first buffer start the chain. */
  lemma FirstBytes(ms: seq<Mbuf>, n: nat)
    requires Chain(ms) && ms != [] && n <= ms[0].len
    ensures n <= |Contents(ms)| && ms[0].data[ms[0].off..ms[0].off + n] == Contents(ms)[..n]
  {
    hide Contents;
    BytesWithin(ms, 0, 0, n);
    assert Before(ms, 0) == 0;
  }

  /** m_cat: one chain behind the other. */
  lemma ContentsConcat(ms: seq<Mbuf>, ns: seq<Mbuf>)
    requires Chain(ms + ns) && Chain(ms) && Chain(ns)
    ensures Contents(ms + ns) == Contents(ms) + Contents(ns)
  {
    hide Segs; hide Flat;
    assert Segs(ms + ns) == Segs(ms) + Segs(ns);
    FlatConcat(Segs(ms), Segs(ns));
  }

  /** What m_copydata finds: len bytes from off on, or as many as there are. */
  function Taken(f: seq<byte>, off: nat, len: nat): (t: seq<byte>)
    ensures |t| <= len
  {
    if off >= |f| then [] else if off + len <= |f| then f[off..off + len] else f[off..]
  }

  /** m_copydata, its first loop. */
  method SkipTo(ms: seq<Mbuf>, off: nat) returns (k: nat, o: nat)
    requires Chain(ms)
    ensures k <= |ms| && Before(ms, k) + o == off && (k < |ms| ==> o <= ms[k].len)
    ensures Contents(ms) == old(Contents(ms)) && Before(ms, |ms|) == |Contents(ms)|
  {
    hide Contents; hide Before;
    BeforeAll(ms);
    o, k := off, 0;
    while o > 0 && k < |ms| && o >= ms[k].len
      invariant k <= |ms| && Before(ms, k) + o == off && Contents(ms) == old(Contents(ms))
      decreases |ms| - k
    {
      BytesWithin(ms, k, 0, 0);
      o, k := o - ms[k].len, k + 1;
    }
  }

  /** m_copydata; a short read leaves the rest of the destination as it was. */
  method CopyData(ms: seq<Mbuf>, off: nat, len: nat) returns (cp: seq<byte>)
    requires Chain(ms)
    ensures Contents(ms) == old(Contents(ms)) && cp == Taken(Contents(ms), off, len)
  {
    hide Contents; hide Before;
    var k: nat, o: nat, left: nat := 0, 0, len;
    k, o := SkipTo(ms, off);
    cp := [];
    if k == |ms| {
      return;
    }
    BytesWithin(ms, k, o, 0);
    while left > 0 && k < |ms|
      invariant k <= |ms| && left <= len && Contents(ms) == old(Contents(ms)) && off + (len - left) <= |Contents(ms)|
                && cp == Contents(ms)[off..off + (len - left)]
      invariant left > 0 ==> Before(ms, k) + o == off + (len - left)
      invariant left > 0 && k < |ms| ==> o <= ms[k].len
      decreases |ms| - k
    {
      var taken := if ms[k].len - o < left then ms[k].len - o else left;
      BytesWithin(ms, k, o, taken);
      SlicesJoin(Contents(ms), off, off + (len - left), off + (len - left) + taken);
      cp := cp + ms[k].data[ms[k].off + o..ms[k].off + o + taken];
      left, o, k := left - taken, 0, k + 1;
    }
    BeforeAll(ms);
  }

  class Packet {
    var ms: seq<Mbuf>
    var pktlen: nat // m_pkthdr.len

    ghost predicate Valid()
      reads this, ms
    {
      ms != [] && Chain(ms) && pktlen == Before(ms, |ms|)
    }

    /** The bytes of the packet. */
    ghost function Bytes(): (f: seq<byte>)
      requires Valid()
      reads this, ms, Storage(ms)
      ensures |f| == pktlen
    {
      BeforeAll(ms);
      Contents(ms)
    }

    /** m_append, its first part: copy into the space behind the last buffer. */
    method FillLast(m: Mbuf, cp: seq<byte>)
      requires Valid() && m == ms[|ms| - 1] && |cp| <= m.data.Length - (m.off + m.len)
      modifies m`len, m.data, this`pktlen
      ensures Valid() && Bytes() == old(Bytes()) + cp
    {
      hide Segs; hide Flat; hide Splice; hide Before;
      var n := |ms| - 1;
      BeforeAll(ms);
      ghost var ss, d := Segs(ms), m.data[..];
      CopyIn(m.data, m.off + m.len, cp);
      m.len := m.len + |cp|;
      pktlen := pktlen + |cp|;
      assert m.Bytes() == ss[n] + cp by {
        SpliceAt(d, m.off + |ss[n]|, cp);
        assert m.Bytes() == m.data[..][m.off..m.off + |ss[n]|] + m.data[..][m.off + |ss[n]|..m.off + m.len];
        assert ss[n] == d[..m.off + |ss[n]|][m.off..];
      }
      FlatGrown(ss, Segs(ms), cp);
      BeforeAll(ms);
    }

    /** m_append, one turn of its loop: a new buffer that holds cp. */
    method AddMbuf(cp: seq<byte>)
      requires Valid() && |cp| <= MLEN
      modifies this
      ensures Valid() && Bytes() == old(Bytes()) + cp
      ensures |ms| == |old(ms)| + 1 && ms[..|old(ms)|] == old(ms) && fresh(ms[|old(ms)|]) && fresh(ms[|old(ms)|].data)
    {
      hide Segs; hide Flat; hide Before;
      ghost var ss := Segs(ms);
      var m := NewMbuf(cp);
      assert Segs(ms) == ss;
      Link(m);
    }

    /** A further buffer at the end of the chain, counted in the length. */
    method Link(m: Mbuf)
      requires Valid() && m.InBounds() && m !in ms && m.data !in Storage(ms)
      modifies this
      ensures Valid() && ms == old(ms) + [m] && Bytes() == old(Bytes()) + m.Bytes()
    {
      hide Segs; hide Flat; hide Before;
      BeforeAll(ms);
      ghost var all := ms + [m];
      ChainSnoc(ms, m);
      ghost var ss := Segs(all);
      ms := ms + [m];
      pktlen := pktlen + m.len;
      assert Segs(ms) == ss;
      BeforeAll(ms);
    }

    /** m_append, its loop; the allocator has `mbufs` buffers to give. */
    method AddMbufs(cp: seq<byte>, mbufs: nat) returns (n: nat)
      requires Valid()
      modifies this
      ensures Valid() && old(ms) <= ms
      ensures forall i :: |old(ms)| <= i < |ms| ==> fresh(ms[i]) && fresh(ms[i].data)
      ensures n <= |cp| && Bytes() == old(Bytes()) + cp[..n]
      ensures |cp| <= MLEN * mbufs ==> n == |cp|
    {
      hide Segs; hide Flat; hide Before; hide Contents;
      n := 0;
      var left := mbufs;
      while n < |cp| && left > 0
        invariant Valid() && old(ms) <= ms && n <= |cp| && Bytes() == old(Bytes()) + cp[..n]
        invariant forall i :: |old(ms)| <= i < |ms| ==> fresh(ms[i]) && fresh(ms[i].data)
        invariant |cp| <= MLEN * mbufs ==> |cp| - n <= MLEN * left
        decreases left
      {
        var take := if MLEN < |cp| - n then MLEN else |cp| - n;
        assert cp[..n] + cp[n..n + take] == cp[..n + take];
        AddMbuf(cp[n..n + take]);
        n, left := n + take, left - 1;
      }
    }

    /** m_append. */
    method Append(cp: seq<byte>, mbufs: nat) returns (ok: bool, ghost n: nat)
      requires Valid()
      modifies this, ms, Storage(ms)
      ensures Valid() && old(ms) <= ms
      ensures forall i :: |old(ms)| <= i < |ms| ==> fresh(ms[i]) && fresh(ms[i].data)
      ensures n <= |cp| && Bytes() == old(Bytes()) + cp[..n] && (ok <==> n == |cp|)
      ensures |cp| <= MLEN * mbufs ==> ok
    {
      hide Segs; hide Flat; hide Before; hide Contents;
      var m := ms[|ms| - 1];
      assert m.data in Storage(ms);
      var space := m.data.Length - (m.off + m.len);
      var at: nat := if space > |cp| then |cp| else space;
      assert cp[..0] == [];
      if at > 0 {
        FillLast(m, cp[..at]);
      }
      var rest := AddMbufs(cp[at..], mbufs);
      assert cp[..at] + cp[at..][..rest] == cp[..at + rest];
      ok, n := at + rest == |cp|, at + rest;
    }

    /** The sum of the lengths of the buffers. */
    method Count() returns (total: nat)
      ensures total == Before(ms, |ms|)
    {
      total := 0;
      for k := 0 to |ms|
        invariant total == Before(ms, k)
      {
        total := total + ms[k].len;
      }
    }

    /** m_adj, its end: the packet length is the sum of the lengths. */
    method Sync()
      requires ms != [] && Chain(ms)
      modifies this`pktlen
      ensures Valid() && Bytes() == old(Contents(ms))
    {
      hide Segs; hide Flat; hide Before;
      ghost var ss := Segs(ms);
      pktlen := Count();
      assert Segs(ms) == ss;
    }

    method TrimHeadAt(k: nat, n: nat)
      requires Chain(ms) && k < |ms| && n <= ms[k].len
      modifies ms[k]
      ensures Chain(ms) && Segs(ms) == old(Segs(ms))[k := old(Segs(ms))[k][n..]]
    {
      hide Segs;
      ms[k].TrimHead(n);
    }

    /** m_adj with a positive count, its loop. */
    method DropHead(count: nat)
      requires Chain(ms)
      modifies ms
      ensures Chain(ms) && Contents(ms) == From(old(Contents(ms)), count)
    {
      hide Flat; hide Segs; hide HeadTrimmed; hide From;
      ghost var ss := Segs(ms);
      var len: nat, k: nat := count, 0;
      ghost var c: nat := 0;
      FlatWhole(ss);
      HeadTrimmedNone(ss);
      while len > 0 && k < |ms|
        invariant k <= |ms| && Chain(ms) && (if k < |ss| then c <= |ss[k]| else c == 0) && (c > 0 ==> len == 0)
        invariant Segs(ms) == HeadTrimmed(ss, k, c)
        invariant count == len + |Flat(ss[..k])| + c
        decreases len, |ms| - k
      {
        HeadTrimmedSteps(ss, k, 0);
        NextSegment(ss, k);
        HeadTrimmedSteps(ss, k, if ms[k].len <= len then ms[k].len else len);
        if ms[k].len <= len {
          len := len - ms[k].len;
          TrimHeadAt(k, ms[k].len);
          k := k + 1;
        } else {
          TrimHeadAt(k, len);
          c := len;
          len := 0;
        }
      }
      HeadGone(ss, k, c, count, len);
    }

    /** m_adj with a positive count: trim from the head. */
    method AdjHead(count: nat)
      requires Valid()
      modifies ms, this`pktlen
      ensures Valid() && ms == old(ms) && Bytes() == From(old(Bytes()), count)
    {
      hide Flat; hide Segs; hide Before; hide From;
      DropHead(count);
      Sync();
    }

    method TrimTailAt(k: nat, n: nat)
      requires Chain(ms) && k < |ms| && n <= ms[k].len
      modifies ms[k]
      ensures Chain(ms) && Segs(ms) == old(Segs(ms))[k := old(Segs(ms))[k][..n]]
    {
      hide Segs;
      ms[k].TrimTail(n);
    }

    /** m_adj with a negative count, its second loop: keep n bytes. */
    method Keep(n: nat)
      requires Chain(ms) && n <= |Contents(ms)|
      modifies ms
      ensures Chain(ms) && Contents(ms) == old(Contents(ms))[..n]
    {
      hide Flat; hide Segs; hide Kept;
      ghost var ss := Segs(ms);
      var count: nat := n;
      FlatWhole(ss);
      KeptNone(ss, n);
      for k := 0 to |ms|
        invariant Chain(ms) && Kept(ss, Segs(ms), n, k) && count == n - |Flat(Segs(ms)[..k])|
      {
        ghost var tt := Segs(ms);
        KeptStep(ss, tt, n, k);
        if ms[k].len > count {
          TrimTailAt(k, count);
        } else {
          assert tt[k][..|tt[k]|] == tt[k] && tt[k := tt[k]] == tt;
        }
        count := count - ms[k].len;
      }
      KeptAll(ss, Segs(ms), n);
    }

    /** m_adj with a negative count: trim from the tail; the length field is right afterwards, whatever it was. */
    method AdjTail(len: nat)
      requires ms != [] && Chain(ms)
      modifies ms, this`pktlen
      ensures Valid() && ms == old(ms) && Bytes() == Without(old(Contents(ms)), len)
    {
      hide Flat; hide Segs; hide Before; hide Without;
      ghost var tt, f := Segs(ms), Contents(ms);
      var total := Count();
      assert Segs(ms) == tt;
      BeforeAll(ms);
      var count: nat := if total > len then total - len else 0;
      WithoutIsPrefix(f, len);
      Keep(count);
      Sync();
    }

    /** m_copydata, within the packet. */
    method CopyOut(off: nat, len: nat) returns (cp: seq<byte>)
      requires Valid() && off + len <= pktlen
      ensures Valid() && Bytes() == old(Bytes()) && cp == Bytes()[off..off + len]
    {
      hide Contents; hide Before;
      BeforeAll(ms);
      cp := CopyData(ms, off, len);
    }

    /** The bytes of the first buffer start the packet. */
    lemma HeadBytes(n: nat)
      requires Valid() && n <= ms[0].len
      ensures n <= pktlen && ms[0].data[ms[0].off..ms[0].off + n] == Bytes()[..n]
    {
      FirstBytes(ms, n);
      BeforeAll(ms);
    }

    /** Write within the first buffer. */
    method PutHead(at: nat, cp: seq<byte>)
      requires Valid() && at + |cp| <= ms[0].len
      modifies ms[0].data
      ensures Valid() && at + |cp| <= |old(Bytes())| && Bytes() == Splice(old(Bytes()), at, cp)
    {
      PutFirst(ms, at, cp);
    }

    /** Move the header up over the cipher header, then strip both ends. */
    method Strip(hdrlen: nat, header: nat, trailer: nat)
      requires Valid() && hdrlen + header <= ms[0].len && hdrlen + header + trailer <= |Bytes()|
      modifies this, ms, Storage(ms)
      ensures Valid() && ms == old(ms)
      ensures var f := old(Bytes()); Bytes() == f[..hdrlen] + f[hdrlen + header..|f| - trailer]
    {
      hide Contents; hide Before; hide Splice; hide From; hide Without;
      ghost var f := Bytes();
      HeadBytes(hdrlen);
      var h := ms[0].data[ms[0].off..ms[0].off + hdrlen];
      PutHead(header, h);
      AdjHead(header);
      AdjTail(trailer);
      Stripped(f, hdrlen, header, trailer);
    }
  }
}
