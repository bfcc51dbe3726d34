/** michael_mic of ieee80211_crypto_tkip.c: Michael over a buffer chain, with a spill buffer. */
module MichaelCode {
  import opened Blocks
  import opened Ccm
  import opened Mbufs
  import opened Packets
  import opened Michael

  /** Words straight from the buffer. */
  method WholeWords(ghost lr0: Pair, ghost done: seq<byte>, lr: Pair, a: array<byte>, p: nat, n: nat)
    returns (lr': Pair, m: nat)
    requires p + n <= a.Length && Held(lr0, done, lr, [])
    ensures m <= n < m + 4 && Held(lr0, done + a[p..p + m], lr', [])
  {
    hide Held; hide Mix; hide Word;
    lr', m := lr, 0;
    assert done + a[p..p + 0] == done;
    while n - m >= 4
      invariant m <= n && Held(lr0, done + a[p..p + m], lr', [])
    {
      var w := a[p + m..p + m + 4];
      HeldFills(lr0, done + a[p..p + m], lr', [], w);
      assert done + a[p..p + m] + w == done + a[p..p + m + 4];
      assert [] + w == w;
      lr' := Mix(lr', Word(w));
      m := m + 4;
    }
  }

  /** memcpy into the spill buffer. */
  method Spill(spill: array<byte>, at: nat, a: array<byte>, p: nat, n: nat)
    requires spill.Length == 4 && at + n <= 4 && p + n <= a.Length && a != spill
    modifies spill
    ensures spill[..at + n] == old(spill[..at]) + a[p..p + n]
  {
    for j := 0 to n
      invariant spill[..at + j] == old(spill[..at]) + a[p..p + j] && a[..] == old(a[..])
    {
      spill[at + j] := a[p + j];
    }
  }

  /** Bring the spill buffer up to a word, or as far as n bytes go. */
  method FillSpill(ghost lr0: Pair, ghost done: seq<byte>, lr: Pair, spill: array<byte>, nspill: nat,
                   a: array<byte>, p: nat, k: nat) returns (lr': Pair, nspill': nat)
    requires spill.Length == 4 && nspill + k <= 4 && p + k <= a.Length && a != spill
    requires Held(lr0, done, lr, spill[..nspill])
    modifies spill
    ensures nspill' == (nspill + k) % 4 && Held(lr0, done + a[p..p + k], lr', spill[..nspill'])
  {
    hide Held; hide Mix; hide Word;
    ghost var before := spill[..nspill];
    lr', nspill' := lr, nspill + k;
    Spill(spill, nspill, a, p, k);
    if nspill' == 4 {
      HeldFills(lr0, done, lr, before, a[p..p + k]);
      assert spill[..] == spill[..4] && spill[..0] == [];
      lr', nspill' := Mix(lr', Word(spill[..])), 0;
    } else {
      HeldGrows(lr0, done, lr, before, a[p..p + k]);
    }
  }

  /** From a word boundary: whole words, then the rest into the spill buffer. */
  method Aligned(ghost lr0: Pair, ghost done: seq<byte>, lr: Pair, spill: array<byte>,
                 a: array<byte>, p: nat, n: nat) returns (lr': Pair, nspill: nat)
    requires spill.Length == 4 && p + n <= a.Length && a != spill && Held(lr0, done, lr, [])
    modifies spill
    ensures nspill < 4 && Held(lr0, done + a[p..p + n], lr', spill[..nspill])
  {
    hide Held; hide Mix; hide Word;
    var m;
    lr', m := WholeWords(lr0, done, lr, a, p, n);
    assert spill[..0] == [];
    lr', nspill := FillSpill(lr0, done + a[p..p + m], lr', spill, 0, a, p + m, n - m);
    assert done + a[p..p + m] + a[p + m..p + n] == done + a[p..p + n];
  }

  /** One segment of the chain. */
  method Segment(ghost lr0: Pair, ghost done: seq<byte>, lr: Pair, spill: array<byte>, nspill: nat,
                 a: array<byte>, p: nat, n: nat) returns (lr': Pair, nspill': nat)
    requires spill.Length == 4 && nspill < 4 && p + n <= a.Length && a != spill
    requires Held(lr0, done, lr, spill[..nspill])
    modifies spill
    ensures nspill' < 4 && Held(lr0, done + a[p..p + n], lr', spill[..nspill'])
  {
    hide Held;
    lr', nspill' := lr, nspill;
    var k: nat := 0;
    assert done + a[p..p + 0] == done;
    if nspill != 0 {
      k := if 4 - nspill < n then 4 - nspill else n;
      lr', nspill' := FillSpill(lr0, done, lr, spill, nspill, a, p, k);
      if nspill' != 0 {
        return;
      }
    }
    assert spill[..0] == [];
    lr', nspill' := Aligned(lr0, done + a[p..p + k], lr', spill, a, p + k, n - k);
    assert done + a[p..p + k] + a[p + k..p + n] == done + a[p..p + n];
  }

  /** One buffer of the chain; at is where its bytes start in the data. */
  method OneMbuf(ghost lr0: Pair, ghost off: nat, ghost at: nat, lr: Pair, spill: array<byte>, nspill: nat,
                 ms: seq<Mbuf>, k: nat, o: nat, n: nat) returns (lr': Pair, nspill': nat)
    requires spill.Length == 4 && nspill < 4 && Chain(ms) && spill !in Storage(ms) && k < |ms| && o + n <= ms[k].len
    requires off <= at <= |Contents(ms)| && Before(ms, k) + o == at
             && Held(lr0, Contents(ms)[off..at], lr, spill[..nspill])
    modifies spill
    ensures nspill' < 4 && Contents(ms) == old(Contents(ms)) && at + n <= |Contents(ms)|
    ensures Held(lr0, Contents(ms)[off..at + n], lr', spill[..nspill'])
  {
    hide Held; hide Segs; hide Flat; hide Before;
    ghost var ss, f := Segs(ms), Contents(ms);
    BytesWithin(ms, k, o, n);
    assert f[off..at] + f[at..at + n] == f[off..at + n];
    assert forall i :: 0 <= i < |ms| ==> ms[i].data in Storage(ms);
    lr', nspill' := Segment(lr0, f[off..at], lr, spill, nspill, ms[k].data, ms[k].off + o, n);
    assert Segs(ms) == ss;
  }

  /** The loop over the chain: len bytes from byte `off` on. It stays inside exactly when there are as many. */
  method Data(ghost lr0: Pair, lr: Pair, spill: array<byte>, ms: seq<Mbuf>, off: nat, len: nat)
    returns (lr': Pair, nspill: nat, inside: bool)
    requires spill.Length == 4 && Chain(ms) && spill !in Storage(ms) && ms != [] && off <= ms[0].len
    requires Held(lr0, [], lr, [])
    modifies spill
    ensures nspill < 4 && Contents(ms) == old(Contents(ms)) && (inside <==> off + len <= |Contents(ms)|)
    ensures inside ==> Held(lr0, Contents(ms)[off..off + len], lr', spill[..nspill])
  {
    hide Held; hide Contents; hide Before;
    ghost var f := Contents(ms);
    lr', nspill, inside := lr, 0, true;
    var k: nat, o: nat, left: nat := 0, off, len;
    BeforeAll(ms);
    BytesWithin(ms, 0, off, 0);
    assert f[off..off + 0] == [] && spill[..0] == [];
    while true
      invariant k < |ms| && o <= ms[k].len && left <= len && Before(ms, k) + o == off + (len - left) <= |f|
      invariant Contents(ms) == f && nspill < 4 && Held(lr0, f[off..off + (len - left)], lr', spill[..nspill])
      decreases |ms| - k
    {
      var n := if ms[k].len - o > left then left else ms[k].len - o;
      lr', nspill := OneMbuf(lr0, off, off + (len - left), lr', spill, nspill, ms, k, o, n);
      left := left - n;
      if left == 0 {
        return;
      }
      BytesWithin(ms, k, o, n);
      k, o := k + 1, 0;
      if k == |ms| {
        BeforeAll(ms);
        return lr', nspill, false; // KASSERT(m)
      }
    }
  }

  /** The key, then the four words of pseudo header. */
  method Header(key: seq<byte>, hdr: seq<byte>) returns (lr: Pair)
    requires |key| == 8 && |hdr| == 16
    ensures lr == Words(KeyOf(key), hdr)
  {
    hide Mix; hide Word; hide Words;
    lr := (Word(key[..4]), Word(key[4..]));
    ghost var lr0 := lr;
    assert hdr[..0] == [];
    NoWords(lr0);
    OneWord(lr0, hdr, 0);
    lr := Mix(lr, Word(hdr[0..4]));
    OneWord(lr0, hdr, 4);
    lr := Mix(lr, Word(hdr[4..8]));
    OneWord(lr0, hdr, 8);
    lr := Mix(lr, Word(hdr[8..12]));
    OneWord(lr0, hdr, 12);
    lr := Mix(lr, Word(hdr[12..16]));
    assert hdr[..16] == hdr;
  }

  /** michael_mic: the code of the data, however the chain cuts it, if the chain has as much. */
  method MichaelMic(key: seq<byte>, ms: seq<Mbuf>, off: nat, len: nat) returns (mic: seq<byte>, inside: bool)
    requires |key| == 8 && ms != [] && Chain(ms) && 24 <= off <= ms[0].len && off <= |Contents(ms)|
    requires H.Header(Contents(ms)[..off]) && (Contents(ms)[0] & 0x80 != 0 ==> off > 24)
    ensures Contents(ms) == old(Contents(ms)) && (inside <==> off + len <= |Contents(ms)|)
    ensures inside ==> mic == Mic(key, CodeHeader(Contents(ms)[..off]), Contents(ms)[off..off + len])
  {
    hide Held; hide Mix; hide Word; hide CodeHeader; hide Words; hide Contents; hide Before; hide WordBytes;
    ghost var f := Contents(ms);
    FirstBytes(ms, off);
    var h := ms[0].data[ms[0].off..ms[0].off + off];
    assert h[0] == f[0];
    var hdr := CodeHeader(h);
    var lr := Header(key, hdr);
    HeldNone(lr);
    var spill := new byte[4];
    ghost var lr0 := lr;
    var nspill;
    lr, nspill, inside := Data(lr0, lr, spill, ms, off, len);
    if !inside {
      return [], false;
    }
    HeldPadded(lr0, f[off..off + len], lr, spill[..nspill]);
    var last := spill[..nspill] + [0x5a] + Zeros(3 - nspill);
    lr := Mix(lr, Word(last));
    lr := Mix(lr, 0);
    mic := WordBytes(lr.0) + WordBytes(lr.1);
  }
}
