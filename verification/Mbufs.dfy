/** Buffer chains: mbufs linked one after another, and the bytes they hold together. */
module Mbufs {
  import opened Blocks

  // ---------------------------------------------------------------------------
  // The bytes of a chain, as values

  /** The bytes of all segments, joined. */
  function Flat(ss: seq<seq<byte>>): seq<byte> {
    if ss == [] then [] else ss[0] + Flat(ss[1..])
  }

  lemma {:induction false} FlatConcat(a: seq<seq<byte>>, b: seq<seq<byte>>)
    ensures Flat(a + b) == Flat(a) + Flat(b)
  {
    if a == [] {
      assert a + b == b;
    } else {
      FlatConcat(a[1..], b);
      assert (a + b)[1..] == a[1..] + b;
    }
  }

  lemma FlatOne(s: seq<byte>)
    ensures Flat([s]) == s
  {
    assert [s][1..] == [];
  }

  lemma CutAt<T>(s: seq<T>, k: nat)
    requires k < |s|
    ensures s[..k + 1] == s[..k] + [s[k]] && s == s[..k + 1] + s[k + 1..]
  {
  }

  /** Segment k, between the bytes before it and the bytes after it. */
  lemma FlatSplit(ss: seq<seq<byte>>, k: nat)
    requires k < |ss|
    ensures Flat(ss[..k + 1]) == Flat(ss[..k]) + ss[k]
    ensures Flat(ss) == Flat(ss[..k]) + ss[k] + Flat(ss[k + 1..])
  {
    hide Flat;
    CutAt(ss, k);
    FlatOne(ss[k]);
    FlatConcat(ss[..k], [ss[k]]);
    FlatConcat(ss[..k + 1], ss[k + 1..]);
  }

  lemma FlatWhole(ss: seq<seq<byte>>)
    ensures ss[..|ss|] == ss && ss[..0] == [] && Flat(ss[..0]) == []
  {
  }

  /** Writing within one segment writes within the whole. */
  lemma FlatWrite(ss: seq<seq<byte>>, k: nat, o: nat, r: seq<byte>)
    requires k < |ss| && o + |r| <= |ss[k]|
    ensures |Flat(ss)| >= |Flat(ss[..k])| + |ss[k]|
    ensures Flat(ss[k := Splice(ss[k], o, r)]) == Splice(Flat(ss), |Flat(ss[..k])| + o, r)
  {
    hide Flat;
    var tt := ss[k := Splice(ss[k], o, r)];
    FlatSplit(ss, k);
    FlatSplit(tt, k);
    assert tt[..k] == ss[..k] && tt[k + 1..] == ss[k + 1..];
  }

  lemma SpliceWithin(s: seq<byte>, off: nat, len: nat, o: nat, r: seq<byte>)
    requires off + len <= |s| && o + |r| <= len
    ensures Splice(s, off + o, r)[off..off + len] == Splice(s[off..off + len], o, r)
  {
  }

  // ---------------------------------------------------------------------------
  // Mbufs

  /** One buffer: `len` bytes from `off` on, within its storage. */
  class Mbuf {
    const data: array<byte>
    var off: nat
    var len: nat

    constructor (size: nat)
      ensures data.Length == size && off == 0 && len == 0 && fresh(data)
    {
      data := new byte[size];
      off, len := 0, 0;
    }

    ghost predicate InBounds()
      reads this
    {
      off + len <= data.Length
    }

    ghost function Bytes(): (s: seq<byte>)
      requires InBounds()
      reads this, data
      ensures |s| == len
    {
      data[off..off + len]
    }

    method TrimHead(n: nat)
      requires InBounds() && n <= len
      modifies this
      ensures InBounds() && Bytes() == old(Bytes())[n..]
    {
      len := len - n;
      off := off + n;
    }

    method TrimTail(n: nat)
      requires InBounds() && n <= len
      modifies this
      ensures InBounds() && Bytes() == old(Bytes())[..n]
    {
      len := n;
    }
  }

  /** The storage of a chain. */
  ghost function Storage(ms: seq<Mbuf>): set<array<byte>> { set m | m in ms :: m.data }

  /** Separate buffers, each with its own storage. */
  ghost predicate Chain(ms: seq<Mbuf>)
    reads ms
  {
    && (forall i :: 0 <= i < |ms| ==> ms[i].InBounds())
    && (forall i, j :: 0 <= i < j < |ms| ==> ms[i] != ms[j] && ms[i].data != ms[j].data)
  }

  ghost function Segs(ms: seq<Mbuf>): (ss: seq<seq<byte>>)
    requires forall i :: 0 <= i < |ms| ==> ms[i].InBounds()
    reads ms, Storage(ms)
    ensures |ss| == |ms| && forall i :: 0 <= i < |ms| ==> ss[i] == ms[i].Bytes()
  {
    if ms == [] then [] else [ms[0].Bytes()] + Segs(ms[1..])
  }

  ghost function Contents(ms: seq<Mbuf>): seq<byte>
    requires Chain(ms)
    reads ms, Storage(ms)
  {
    Flat(Segs(ms))
  }

  /** The number of bytes in the first k buffers. */
  ghost function Before(ms: seq<Mbuf>, k: nat): nat
    requires k <= |ms|
    reads ms
  {
    if k == 0 then 0 else Before(ms, k - 1) + ms[k - 1].len
  }

  lemma {:induction false} BeforeIsFlat(ms: seq<Mbuf>, k: nat)
    requires Chain(ms) && k <= |ms|
    ensures Before(ms, k) == |Flat(Segs(ms)[..k])|
  {
    hide Flat; hide Segs;
    FlatWhole(Segs(ms));
    if k > 0 {
      BeforeIsFlat(ms, k - 1);
      FlatSplit(Segs(ms), k - 1);
    }
  }

  lemma BeforeAll(ms: seq<Mbuf>)
    requires Chain(ms)
    ensures Before(ms, 0) == 0 && Before(ms, |ms|) == |Contents(ms)|
  {
    hide Flat; hide Segs;
    BeforeIsFlat(ms, |ms|);
    FlatWhole(Segs(ms));
  }

  /** The bytes of a buffer, within the bytes of the chain. */
  lemma BytesWithin(ms: seq<Mbuf>, k: nat, o: nat, n: nat)
    requires Chain(ms) && k < |ms| && o + n <= ms[k].len
    ensures Before(ms, k) + o + n <= |Contents(ms)|
    ensures ms[k].data[ms[k].off + o..ms[k].off + o + n] == Contents(ms)[Before(ms, k) + o..Before(ms, k) + o + n]
    ensures Before(ms, k + 1) == Before(ms, k) + ms[k].len <= |Contents(ms)|
  {
    hide Flat; hide Segs;
    var ss := Segs(ms);
    BeforeIsFlat(ms, k);
    BeforeIsFlat(ms, k + 1);
    FlatSplit(ss, k);
    Middle(Flat(ss[..k]), ss[k], Flat(ss[k + 1..]), o, n);
    SliceOfSlice(ms[k].data[..], ms[k].off, ms[k].len, o, n);
    assert ss[k] == ms[k].data[..][ms[k].off..ms[k].off + ms[k].len];
    assert ms[k].data[..][ms[k].off + o..ms[k].off + o + n] == ms[k].data[ms[k].off + o..ms[k].off + o + n];
  }

  /** The chain whose segments were ss, with r written into buffer k. */
  lemma Wrote(ms: seq<Mbuf>, ss: seq<seq<byte>>, k: nat, o: nat, r: seq<byte>)
    requires Chain(ms) && |ss| == |ms| && k < |ms| && o + |r| <= |ss[k]|
    requires forall i :: 0 <= i < |ms| && i != k ==> ms[i].Bytes() == ss[i]
    requires ms[k].Bytes() == Splice(ss[k], o, r)
    ensures Before(ms, k) + o + |r| <= |Flat(ss)|
    ensures Contents(ms) == Splice(Flat(ss), Before(ms, k) + o, r)
  {
    hide Flat; hide Segs; hide Splice;
    FlatWrite(ss, k, o, r);
    assert Segs(ms) == ss[k := Splice(ss[k], o, r)];
    BeforeIsFlat(ms, k);
    assert Segs(ms)[..k] == ss[..k];
  }

  /** The same, when the storage of buffer k was d. */
  lemma WroteData(ms: seq<Mbuf>, ss: seq<seq<byte>>, k: nat, o: nat, r: seq<byte>, d: seq<byte>)
    requires Chain(ms) && |ss| == |ms| && k < |ms| && |d| == ms[k].data.Length && o + |r| <= ms[k].len
    requires forall i :: 0 <= i < |ms| && i != k ==> ms[i].Bytes() == ss[i]
    requires ss[k] == d[ms[k].off..ms[k].off + ms[k].len] && ms[k].data[..] == Splice(d, ms[k].off + o, r)
    ensures Before(ms, k) + o + |r| <= |Flat(ss)|
    ensures Contents(ms) == Splice(Flat(ss), Before(ms, k) + o, r)
  {
    hide Flat; hide Segs; hide Splice; hide Contents; hide Before;
    SpliceWithin(d, ms[k].off, ms[k].len, o, r);
    assert ms[k].Bytes() == ms[k].data[..][ms[k].off..ms[k].off + ms[k].len];
    Wrote(ms, ss, k, o, r);
  }

  /** The buffer that holds byte `off` of the chain. */
  method Find(ms: seq<Mbuf>, off: nat) returns (k: nat, o: nat)
    requires Chain(ms) && off < |Contents(ms)|
    ensures k < |ms| && o < ms[k].len && Before(ms, k) + o == off
  {
    hide Flat; hide Segs;
    BeforeAll(ms);
    k, o := 0, off;
    while o >= ms[k].len
      invariant k < |ms| && Before(ms, k) + o == off < |Contents(ms)|
      decreases |ms| - k
    {
      BytesWithin(ms, k, 0, 0);
      o := o - ms[k].len;
      k := k + 1;
      if k == |ms| {
        BeforeAll(ms);
        assert false; // KASSERT(m->m_next)
      }
    }
  }
}
