/** The RSN element (section 7.3.2.25 of IEEE 802.11-2007): ieee80211_setup_rsn_ie and ieee80211_parse_rsn. */
module Rsn {
  import opened Elements
  import opened Options

  // Ciphers as the stack numbers them
  const WEP: nat := 0
  const TKIP: nat := 1
  const AES_OCB: nat := 2
  const AES_CCM: nat := 3
  const NONE: nat := 6
  const UNKNOWN: nat := 32

  // Key management
  const UNSPEC: nat := 1
  const PSK: nat := 2

  const VERSION: nat := 1

  type Selector = s: seq<Octet> | |s| == 4 witness [0, 0, 0, 0]

  /** A selector of the RSN's own OUI. */
  function Sel(k: Octet): Selector { [0x00, 0x0f, 0xac, k] }

  /** rsn_cipher. */
  function CipherOf(s: Selector): nat {
    if s[..3] != Sel(0)[..3] then UNKNOWN
    else if s[3] == 0 then NONE
    else if s[3] == 1 || s[3] == 5 then WEP
    else if s[3] == 2 then TKIP
    else if s[3] == 3 then AES_OCB
    else if s[3] == 4 then AES_CCM
    else UNKNOWN
  }

  /** The key length a selector states, if it states one. */
  function KeyLength(s: Selector, before: nat): nat {
    if s == Sel(1) then 5 else if s == Sel(5) then 13 else before
  }

  /** rsn_keymgmt: 0 when it is to be discarded. */
  function KeyMgmtOf(s: Selector): nat {
    if s == Sel(1) then UNSPEC else if s == Sel(2) then PSK else 0
  }

  // ---------------------------------------------------------------------------
  // The fields of the element

  datatype Fields = Fields(version: nat, mcast: Selector, ucast: seq<Selector>, akm: seq<Selector>, tail: seq<Octet>)

  function Le16(n: nat): (s: seq<Octet>)
    requires n < 65536
    ensures |s| == 2
  {
    [n % 256, n / 256]
  }

  function Read16(s: seq<Octet>, at: nat): (n: nat)
    requires at + 2 <= |s|
    ensures n < 65536
  {
    var lo: nat, hi: nat := s[at], s[at + 1];
    lo + 256 * hi
  }

  function Join(ss: seq<Selector>): (s: seq<Octet>)
    ensures |s| == 4 * |ss|
  {
    if ss == [] then [] else ss[0] + Join(ss[1..])
  }

  predicate Sizes(f: Fields) { f.version < 65536 && |f.ucast| < 65536 && |f.akm| < 65536 }

  /** The body of the element. */
  function Encode(f: Fields): seq<Octet>
    requires Sizes(f)
  {
    Le16(f.version) + f.mcast + (Le16(|f.ucast|) + Join(f.ucast)) + (Le16(|f.akm|) + Join(f.akm)) + f.tail
  }

  /** n selectors from position `at` on. */
  function Selectors(b: seq<Octet>, at: nat, n: nat): (ss: seq<Selector>)
    requires at + 4 * n <= |b|
    ensures |ss| == n
    decreases n
  {
    if n == 0 then [] else
      var first: Selector := b[at..at + 4];
      [first] + Selectors(b, at + 4, n - 1)
  }

  /** The fields of a body, when it is long enough for what it announces. */
  function Decode(b: seq<Octet>): Option<Fields> {
    if |b| < 10 then None
    else
      var n := Read16(b, 6);
      if |b| < 8 + 4 * n + 2 then None
      else
        var at := 8 + 4 * n;
        var m := Read16(b, at);
        if |b| < at + 2 + 4 * m then None
        else
          var mcast: Selector := b[2..6];
          Some(Fields(Read16(b, 0), mcast, Selectors(b, 8, n), Selectors(b, at + 2, m), b[at + 2 + 4 * m..]))
  }

  lemma {:induction false} SelectorsOfJoin(pre: seq<Octet>, ss: seq<Selector>, post: seq<Octet>)
    ensures Selectors(pre + Join(ss) + post, |pre|, |ss|) == ss
    decreases ss
  {
    if ss != [] {
      var b := pre + Join(ss) + post;
      assert b == (pre + ss[0]) + Join(ss[1..]) + post;
      assert b[|pre|..|pre| + 4] == ss[0];
      SelectorsOfJoin(pre + ss[0], ss[1..], post);
    }
  }

  lemma {:induction false} JoinOfSelectors(b: seq<Octet>, at: nat, n: nat)
    requires at + 4 * n <= |b|
    ensures Join(Selectors(b, at, n)) == b[at..at + 4 * n]
    decreases n
  {
    if n > 0 {
      JoinOfSelectors(b, at + 4, n - 1);
      assert Selectors(b, at, n)[1..] == Selectors(b, at + 4, n - 1);
      assert b[at..at + 4 * n] == b[at..at + 4] + b[at + 4..at + 4 + 4 * (n - 1)];
    }
  }

  lemma Read16OfLe16(pre: seq<Octet>, n: nat, post: seq<Octet>)
    requires n < 65536
    ensures Read16(pre + Le16(n) + post, |pre|) == n
  {
  }

  /** Decoding undoes encoding. */
  lemma DecodeEncode(f: Fields)
    requires Sizes(f)
    ensures Decode(Encode(f)) == Some(f)
  {
    hide Read16; hide Le16; hide Join; hide Selectors;
    var b := Encode(f);
    var u, a := Join(f.ucast), Join(f.akm);
    var p1 := Le16(f.version) + f.mcast;
    var p2 := p1 + Le16(|f.ucast|);
    var p3 := p2 + u;
    var p4 := p3 + Le16(|f.akm|);
    var p5 := p4 + a;
    assert b == [] + Le16(f.version) + (f.mcast + (Le16(|f.ucast|) + u) + (Le16(|f.akm|) + a) + f.tail);
    Read16OfLe16([], f.version, f.mcast + (Le16(|f.ucast|) + u) + (Le16(|f.akm|) + a) + f.tail);
    assert b == p1 + Le16(|f.ucast|) + (u + (Le16(|f.akm|) + a) + f.tail);
    Read16OfLe16(p1, |f.ucast|, u + (Le16(|f.akm|) + a) + f.tail);
    assert b == p2 + u + ((Le16(|f.akm|) + a) + f.tail);
    SelectorsOfJoin(p2, f.ucast, (Le16(|f.akm|) + a) + f.tail);
    assert b == p3 + Le16(|f.akm|) + (a + f.tail);
    Read16OfLe16(p3, |f.akm|, a + f.tail);
    assert b == p4 + a + f.tail;
    SelectorsOfJoin(p4, f.akm, f.tail);
    assert b == p5 + f.tail;
    assert b[2..6] == f.mcast && b[|p5|..] == f.tail;
    var n, m := |f.ucast|, |f.akm|;
    assert Read16(b, 0) == f.version && Read16(b, 6) == n && Read16(b, 8 + 4 * n) == m;
    assert Selectors(b, 8, n) == f.ucast && Selectors(b, 8 + 4 * n + 2, m) == f.akm;
  }

  lemma Le16OfRead16(s: seq<Octet>, at: nat)
    requires at + 2 <= |s|
    ensures Le16(Read16(s, at)) == s[at..at + 2]
  {
  }

  /** Encoding undoes decoding: nothing of the body is ignored or made up. */
  lemma EncodeDecode(b: seq<Octet>)
    requires Decode(b).Some?
    ensures Sizes(Decode(b).value) && Encode(Decode(b).value) == b
  {
    hide Read16; hide Le16; hide Join; hide Selectors;
    var f := Decode(b).value;
    var n := |f.ucast|;
    var at, m := 8 + 4 * n, |f.akm|;
    Le16OfRead16(b, 0);
    Le16OfRead16(b, 6);
    Le16OfRead16(b, at);
    JoinOfSelectors(b, 8, n);
    JoinOfSelectors(b, at + 2, m);
    assert b == b[0..2] + b[2..6] + (b[6..8] + b[8..at])
                + (b[at..at + 2] + b[at + 2..at + 2 + 4 * m]) + b[at + 2 + 4 * m..];
  }

  // ---------------------------------------------------------------------------
  // What is negotiated

  /** struct ieee80211_rsnparms; the two sets stand for bit masks. */
  datatype Params = Params(mcast: nat, mcastKeylen: nat, ucastSet: set<nat>, ucast: nat, ucastKeylen: nat,
                           akmSet: set<nat>, akm: nat, caps: nat)

  /** The ciphers a list offers; the unknown ones are shifted out. */
  function Ciphers(ss: seq<Selector>): set<nat> {
    if ss == [] then {} else Ciphers(ss[..|ss| - 1]) + ({CipherOf(ss[|ss| - 1])} - {UNKNOWN})
  }

  function KeyLengths(ss: seq<Selector>, before: nat): nat {
    if ss == [] then before else KeyLength(ss[|ss| - 1], KeyLengths(ss[..|ss| - 1], before))
  }

  function Akms(ss: seq<Selector>): set<nat> {
    if ss == [] then {} else Akms(ss[..|ss| - 1]) + ({KeyMgmtOf(ss[|ss| - 1])} - {0})
  }

  /** What both sides can do, out of the fields of an element. */
  function Check(f: Fields, p: Params): Option<Params> {
    var u, a := Ciphers(f.ucast) * p.ucastSet, Akms(f.akm) * p.akmSet;
    if f.version != VERSION || CipherOf(f.mcast) != p.mcast || u == {} || a == {} then None
    else Some(p.(mcastKeylen := KeyLength(f.mcast, p.mcastKeylen),
                 ucast := if TKIP in u then TKIP else AES_CCM,
                 ucastKeylen := KeyLengths(f.ucast, p.ucastKeylen),
                 akm := if UNSPEC in a then UNSPEC else PSK,
                 caps := if |f.tail| > 2 then Read16(f.tail, 0) else p.caps))
  }

  /** What ieee80211_parse_rsn makes of the body of an element. */
  function Parse(b: seq<Octet>, p: Params): Option<Params> {
    match Decode(b)
    case None => None
    case Some(f) => Check(f, p)
  }

  /** What it leaves in the parameters, which it updates as it goes, and whether it accepts. */
  function Stored(b: seq<Octet>, p: Params): (Params, bool) {
    if |b| < 10 || Read16(b, 0) != VERSION then (p, false)
    else
      var mcast: Selector := b[2..6];
      var n, q := Read16(b, 6), p.(mcastKeylen := KeyLength(mcast, p.mcastKeylen));
      if CipherOf(mcast) != p.mcast || |b| < 8 + 4 * n + 2 then (q, false)
      else
        var at, ss := 8 + 4 * n, Selectors(b, 8, n);
        StoredKeys(b, at, Ciphers(ss) * p.ucastSet, q.(ucastKeylen := KeyLengths(ss, p.ucastKeylen)))
  }

  /** From the key management suites on; u are the pairwise ciphers both sides can do. */
  function StoredKeys(b: seq<Octet>, at: nat, u: set<nat>, p: Params): (Params, bool)
    requires at + 2 <= |b|
  {
    var m, q := Read16(b, at), p.(ucast := if TKIP in u then TKIP else AES_CCM);
    if u == {} then (p, false)
    else if |b| < at + 2 + 4 * m then (q, false)
    else
      var a, rest := Akms(Selectors(b, at + 2, m)) * p.akmSet, at + 2 + 4 * m;
      if a == {} then (q, false)
      else (q.(akm := if UNSPEC in a then UNSPEC else PSK,
               caps := if |b| > rest + 2 then Read16(b, rest) else p.caps), true)
  }

  /** It accepts exactly the elements whose fields fit, and then stores what they call for. A refusal leaves the ciphers
      and suites that were chosen before, or the pairwise cipher alone changed, and may leave key lengths of the element
      behind. */
  lemma StoredIsParse(b: seq<Octet>, p: Params)
    ensures var (q, ok) := Stored(b, p);
            && (ok <==> Parse(b, p).Some?) && (ok ==> Parse(b, p) == Some(q))
            && (!ok ==> q == p.(mcastKeylen := q.mcastKeylen, ucastKeylen := q.ucastKeylen, ucast := q.ucast))
  {
    hide Selectors; hide Ciphers; hide Akms; hide KeyLengths; hide CipherOf; hide KeyLength;
    if Decode(b).Some? {
      var at := 8 + 4 * Read16(b, 6);
      var rest := at + 2 + 4 * Read16(b, at);
      assert |b| > rest + 2 ==> Read16(b, rest) == Read16(b[rest..], 0);
    }
  }

  lemma SelectorsNext(b: seq<Octet>, at: nat, n: nat)
    requires at + 4 * (n + 1) <= |b|
    ensures var s: Selector := b[at + 4 * n..at + 4 * n + 4];
            Selectors(b, at, n + 1) == Selectors(b, at, n) + [s]
    decreases n
  {
    if n > 0 {
      SelectorsNext(b, at + 4, n - 1);
    }
  }

  /** The loop over the pairwise ciphers. */
  method UnicastCiphers(b: seq<Octet>, at: nat, n: nat, before: nat) returns (w: set<nat>, keylen: nat)
    requires at + 4 * n <= |b|
    ensures w == Ciphers(Selectors(b, at, n)) && keylen == KeyLengths(Selectors(b, at, n), before)
  {
    hide CipherOf; hide KeyLength; hide Selectors;
    w, keylen := {}, before;
    assert Selectors(b, at, 0) == [];
    for k := 0 to n
      invariant w == Ciphers(Selectors(b, at, k)) && keylen == KeyLengths(Selectors(b, at, k), before)
    {
      var s: Selector := b[at + 4 * k..at + 4 * k + 4];
      SelectorsNext(b, at, k);
      assert (Selectors(b, at, k) + [s])[..k] == Selectors(b, at, k);
      keylen := KeyLength(s, keylen);
      w := w + ({CipherOf(s)} - {UNKNOWN});
    }
  }

  /** The loop over the key management suites. */
  method KeyManagement(b: seq<Octet>, at: nat, n: nat) returns (w: set<nat>)
    requires at + 4 * n <= |b|
    ensures w == Akms(Selectors(b, at, n))
  {
    hide KeyMgmtOf; hide Selectors;
    w := {};
    assert Selectors(b, at, 0) == [];
    for k := 0 to n
      invariant w == Akms(Selectors(b, at, k))
    {
      var s: Selector := b[at + 4 * k..at + 4 * k + 4];
      SelectorsNext(b, at, k);
      assert (Selectors(b, at, k) + [s])[..k] == Selectors(b, at, k);
      w := w + ({KeyMgmtOf(s)} - {0});
    }
  }

  /** ieee80211_parse_rsn. The element is all there is to read: every access lies within it, and the length left
      never drops below zero. */
  method ParseRsn(frm: seq<Octet>, p: Params, wpa2: bool) returns (q: Params, ok: bool)
    requires |frm| >= 2 && |frm| == Size(frm[1])
    ensures (q, ok) == if wpa2 then Stored(frm[2..], p) else (p, false)
  {
    hide Selectors; hide Ciphers; hide Akms; hide KeyLengths; hide CipherOf; hide KeyLength;
    q, ok := p, false;
    if !wpa2 {
      return;
    }
    var b, len: nat := frm[2..], frm[1];
    if len < 10 {
      return;
    }
    var at := 0;
    if Read16(b, at) != VERSION {
      return;
    }
    at, len := at + 2, len - 2;
    var mcast: Selector := b[at..at + 4];
    q := q.(mcastKeylen := KeyLength(mcast, q.mcastKeylen));
    if CipherOf(mcast) != q.mcast {
      return;
    }
    at, len := at + 4, len - 4;
    var n := Read16(b, at);
    at, len := at + 2, len - 2;
    if len < n * 4 + 2 {
      return;
    }
    var w, keylen := UnicastCiphers(b, at, n, q.ucastKeylen);
    q := q.(ucastKeylen := keylen);
    at, len := at + 4 * n, len - 4 * n;
    w := w * q.ucastSet;
    if w == {} {
      return;
    }
    q := q.(ucast := if TKIP in w then TKIP else AES_CCM);
    n := Read16(b, at);
    at, len := at + 2, len - 2;
    if len < n * 4 {
      return;
    }
    w := KeyManagement(b, at, n);
    at, len := at + 4 * n, len - 4 * n;
    w := w * q.akmSet;
    if w == {} {
      return;
    }
    q := q.(akm := if UNSPEC in w then UNSPEC else PSK);
    if len > 2 {
      q := q.(caps := Read16(b, at));
    }
    ok := true;
  }

  // ---------------------------------------------------------------------------
  // The element we send

  /** The number of entries of cipher_suite. */
  const SUITES: nat := 6

  /** The entry of cipher_suite for a group cipher; `beyond` is what lies behind the table. */
  function SuiteOf(cipher: nat, beyond: Selector): Selector {
    if cipher >= SUITES then beyond
    else if cipher == WEP then Sel(1) else if cipher == TKIP then Sel(2) else if cipher == AES_OCB then Sel(3)
    else if cipher == AES_CCM then Sel(4) else if cipher == 4 then [0, 0, 0, 0] else Sel(0)
  }

  function OurMcast(p: Params, beyond: Selector): Selector {
    if p.mcast == WEP && p.mcastKeylen >= 13 then Sel(5) else SuiteOf(p.mcast, beyond)
  }

  function OurCiphers(p: Params): (ss: seq<Selector>)
    ensures |ss| <= 2
  {
    (if AES_CCM in p.ucastSet then [Sel(4)] else []) + (if TKIP in p.ucastSet then [Sel(2)] else [])
  }

  function OurAkms(p: Params): (ss: seq<Selector>)
    ensures |ss| <= 2
  {
    (if UNSPEC in p.akmSet then [Sel(1)] else []) + (if PSK in p.akmSet then [Sel(2)] else [])
  }

  function OurFields(p: Params, beyond: Selector): Fields
    requires p.caps < 65536
  {
    Fields(VERSION, OurMcast(p, beyond), OurCiphers(p), OurAkms(p), Le16(p.caps))
  }

  /** A counted list: the count goes up in place as selectors are added behind it. */
  method AddList(frm: seq<Octet>, first: bool, a: Selector, second: bool, b: Selector) returns (r: seq<Octet>)
    ensures var ss: seq<Selector> := (if first then [a] else []) + (if second then [b] else []);
            r == frm + (Le16(|ss|) + Join(ss))
  {
    var selcnt := |frm|;
    r := frm + Le16(0);
    if first {
      r := r[selcnt := r[selcnt] + 1] + a;
    }
    if second {
      r := r[selcnt := r[selcnt] + 1] + b;
    }
    JoinTwo(a, b);
    assert Le16(0) == [0, 0] && Le16(1) == [1, 0] && Le16(2) == [2, 0];
  }

  lemma JoinTwo(a: Selector, b: Selector)
    ensures Join([]) == [] && Join([a]) == a && Join([b]) == b && Join([a] + [b]) == a + b
  {
    assert [a][1..] == [] && [b][1..] == [] && ([a] + [b])[1..] == [b];
  }

  lemma OurLists(p: Params)
    ensures OurCiphers(p) ==
            (if AES_CCM in p.ucastSet then [Sel(4)] else []) + (if TKIP in p.ucastSet then [Sel(2)] else [])
    ensures OurAkms(p) == (if UNSPEC in p.akmSet then [Sel(1)] else []) + (if PSK in p.akmSet then [Sel(2)] else [])
  {
  }

  lemma Assembled(v: seq<Octet>, m: seq<Octet>, u: seq<Octet>, a: seq<Octet>, c: seq<Octet>, n: Octet)
    ensures var ie := ([48, 0] + v + m + u + a + c)[1 := n]; ie[0] == 48 && ie[2..] == v + m + u + a + c
  {
    assert [48, 0] + v + m + u + a + c == [48, 0] + (v + m + u + a + c);
  }

  /** ieee80211_setup_rsn_ie. */
  method SetupRsn(p: Params, beyond: Selector) returns (ie: seq<Octet>)
    requires p.caps < 65536
    ensures 2 <= |ie| <= 30 && ie[0] == 48 && |ie| == Size(ie[1]) && ie[2..] == Encode(OurFields(p, beyond))
  {
    hide Join; hide Le16; hide Sel; hide OurMcast; hide OurCiphers; hide OurAkms;
    ie := [48, 0] + Le16(VERSION);
    ie := ie + OurMcast(p, beyond);
    OurLists(p);
    ie := AddList(ie, AES_CCM in p.ucastSet, Sel(4), TKIP in p.ucastSet, Sel(2));
    ie := AddList(ie, UNSPEC in p.akmSet, Sel(1), PSK in p.akmSet, Sel(2));
    ie := ie + Le16(p.caps);
    Assembled(Le16(VERSION), OurMcast(p, beyond), Le16(|OurCiphers(p)|) + Join(OurCiphers(p)),
              Le16(|OurAkms(p)|) + Join(OurAkms(p)), Le16(p.caps), |ie| - 2);
    ie := ie[1 := |ie| - 2];
  }

  lemma SuiteFacts()
    ensures CipherOf(Sel(4)) == AES_CCM && CipherOf(Sel(2)) == TKIP && KeyMgmtOf(Sel(1)) == UNSPEC
            && KeyMgmtOf(Sel(2)) == PSK
    ensures forall k: nat :: KeyLength(Sel(4), k) == k && KeyLength(Sel(2), k) == k
  {
  }

  /** A list of at most two selectors. */
  lemma TwoSteps(first: bool, a: Selector, second: bool, b: Selector, keylen: nat)
    requires CipherOf(a) != UNKNOWN && CipherOf(b) != UNKNOWN && KeyLength(a, keylen) == keylen
             && KeyLength(b, keylen) == keylen
    ensures var ss: seq<Selector> := (if first then [a] else []) + (if second then [b] else []);
            Ciphers(ss) == (if first then {CipherOf(a)} else {}) + (if second then {CipherOf(b)} else {})
            && KeyLengths(ss, keylen) == keylen
  {
    hide CipherOf; hide KeyLength;
    CipherSteps([], a, keylen);
    CipherSteps([], b, keylen);
    CipherSteps([a], b, keylen);
    assert [] + [a] == [a] && [] + [b] == [b];
  }

  lemma TwoAkms(first: bool, a: Selector, second: bool, b: Selector)
    requires KeyMgmtOf(a) != 0 && KeyMgmtOf(b) != 0
    ensures var ss: seq<Selector> := (if first then [a] else []) + (if second then [b] else []);
            Akms(ss) == (if first then {KeyMgmtOf(a)} else {}) + (if second then {KeyMgmtOf(b)} else {})
  {
    hide KeyMgmtOf;
    CipherSteps([], a, 0);
    CipherSteps([], b, 0);
    CipherSteps([a], b, 0);
    assert [] + [a] == [a] && [] + [b] == [b];
  }

  lemma OurCiphersAre(p: Params)
    ensures Ciphers(OurCiphers(p)) ==
            (if AES_CCM in p.ucastSet then {AES_CCM} else {}) + (if TKIP in p.ucastSet then {TKIP} else {})
    ensures KeyLengths(OurCiphers(p), p.ucastKeylen) == p.ucastKeylen
  {
    hide CipherOf; hide KeyLength; hide Sel; hide Ciphers; hide KeyLengths;
    SuiteFacts();
    TwoSteps(AES_CCM in p.ucastSet, Sel(4), TKIP in p.ucastSet, Sel(2), p.ucastKeylen);
  }

  lemma CipherSteps(ss: seq<Selector>, s: Selector, keylen: nat)
    ensures Ciphers(ss + [s]) == Ciphers(ss) + ({CipherOf(s)} - {UNKNOWN})
    ensures KeyLengths(ss + [s], keylen) == KeyLength(s, KeyLengths(ss, keylen))
    ensures Akms(ss + [s]) == Akms(ss) + ({KeyMgmtOf(s)} - {0})
  {
    assert (ss + [s])[..|ss|] == ss;
  }

  lemma OurAkmsAre(p: Params)
    ensures Akms(OurAkms(p)) == (if UNSPEC in p.akmSet then {UNSPEC} else {}) + (if PSK in p.akmSet then {PSK} else {})
  {
    hide KeyMgmtOf; hide Sel; hide Akms;
    SuiteFacts();
    TwoAkms(UNSPEC in p.akmSet, Sel(1), PSK in p.akmSet, Sel(2));
  }

  /** The element we send is accepted by a peer with the same parameters exactly when its group cipher is WEP, TKIP, OCB
      or CCMP, or none and the selector for that lies behind the table of suites by chance, and it offers a pairwise
      cipher and a key management suite; the peer then settles on the same group cipher, on TKIP when it is offered, and
      on 802.1X when that is offered. The capabilities are sent, but two bytes are not more than two: they stay as they
      were. */
  lemma OursIsAccepted(p: Params, beyond: Selector)
    requires p.mcast != UNKNOWN && p.caps < 65536
    ensures var r := Parse(Encode(OurFields(p, beyond)), p);
            && (r.Some? <==>
                  && (p.mcast <= AES_CCM || (p.mcast == NONE && beyond == Sel(0)))
                  && p.ucastSet * {AES_CCM, TKIP} != {} && p.akmSet * {UNSPEC, PSK} != {})
            && (r.Some? ==>
                  && r.value.mcast == p.mcast
                  && r.value.ucast == (if TKIP in p.ucastSet then TKIP else AES_CCM)
                  && r.value.akm == (if UNSPEC in p.akmSet then UNSPEC else PSK)
                  && r.value.mcastKeylen ==
                     (if p.mcast != WEP then p.mcastKeylen else if p.mcastKeylen >= 13 then 13 else 5)
                  && r.value.ucastKeylen == p.ucastKeylen && r.value.caps == p.caps)
  {
    hide Ciphers; hide Akms; hide KeyLengths; hide Encode; hide Decode;
    var f := OurFields(p, beyond);
    DecodeEncode(f);
    OurCiphersAre(p);
    OurAkmsAre(p);
    var u, a := Ciphers(f.ucast) * p.ucastSet, Akms(f.akm) * p.akmSet;
    assert u == p.ucastSet * {AES_CCM, TKIP} && a == p.akmSet * {UNSPEC, PSK};
    assert CipherOf(beyond) == NONE <==> beyond == Sel(0);
  }

  /** The element for CCMP in both places, a pre-shared key and capabilities 0, byte by byte. */
  const CCMP_PSK: seq<Octet> :=
    [48, 20, 1, 0, 0x00, 0x0f, 0xac, 4, 1, 0, 0x00, 0x0f, 0xac, 4, 1, 0, 0x00, 0x0f, 0xac, 2, 0, 0]

  const CCMP_PARAMS: Params := Params(AES_CCM, 16, {AES_CCM}, AES_CCM, 16, {PSK}, PSK, 0)

  lemma CcmpFields()
    ensures Encode(OurFields(CCMP_PARAMS, [0, 0, 0, 0])) == CCMP_PSK[2..]
  {
    hide Join;
    JoinTwo(Sel(4), Sel(2));
    OurLists(CCMP_PARAMS);
    assert OurCiphers(CCMP_PARAMS) == [Sel(4)] && OurAkms(CCMP_PARAMS) == [Sel(2)];
  }

  /** It is what we send with these parameters, and a peer that has them accepts it. */
  method CcmpElement() returns (ie: seq<Octet>)
    ensures ie == CCMP_PSK && Parse(ie[2..], CCMP_PARAMS) == Some(CCMP_PARAMS)
  {
    hide Encode; hide OurFields; hide Parse;
    CcmpFields();
    OursIsAccepted(CCMP_PARAMS, [0, 0, 0, 0]);
    CcmpChoices();
    ie := SetupRsn(CCMP_PARAMS, [0, 0, 0, 0]);
    assert ie == [ie[0], ie[1]] + ie[2..] && CCMP_PSK == [48, 20] + CCMP_PSK[2..];
  }

  lemma CcmpChoices()
    ensures Parse(Encode(OurFields(CCMP_PARAMS, [0, 0, 0, 0])), CCMP_PARAMS) == Some(CCMP_PARAMS)
  {
    hide Encode; hide Parse;
    OursIsAccepted(CCMP_PARAMS, [0, 0, 0, 0]);
    var r := Parse(Encode(OurFields(CCMP_PARAMS, [0, 0, 0, 0])), CCMP_PARAMS);
    assert AES_CCM in CCMP_PARAMS.ucastSet * {AES_CCM, TKIP} && PSK in CCMP_PARAMS.akmSet * {UNSPEC, PSK};
    ParseKeeps(Encode(OurFields(CCMP_PARAMS, [0, 0, 0, 0])), CCMP_PARAMS);
  }

  /** The parser changes no more than the group key length, the choices, and the capabilities. */
  lemma ParseKeeps(b: seq<Octet>, p: Params)
    ensures var r := Parse(b, p);
            r.Some? ==> r.value == p.(mcastKeylen := r.value.mcastKeylen, ucast := r.value.ucast,
                                      ucastKeylen := r.value.ucastKeylen, akm := r.value.akm, caps := r.value.caps)
  {
    hide Decode; hide Ciphers; hide Akms; hide KeyLengths;
  }

  /** With group cipher none and zeros behind the table, our own element is refused. */
  lemma NoneRefused()
    ensures var p := Params(NONE, 0, {AES_CCM}, 0, 0, {PSK}, 0, 0);
            Parse(Encode(OurFields(p, [0, 0, 0, 0])), p).None?
  {
    OursIsAccepted(Params(NONE, 0, {AES_CCM}, 0, 0, {PSK}, 0, 0), [0, 0, 0, 0]);
  }

  /** The capabilities of an accepted element are taken over if and only if more than two bytes are left for them, or
      they are what was stored before. */
  lemma CapsReadExactly(p: Params, f: Fields)
    requires Sizes(f) && |f.tail| >= 2 && Parse(Encode(f), p).Some?
    ensures Parse(Encode(f), p).value.caps == Read16(f.tail, 0) <==> |f.tail| > 2 || Read16(f.tail, 0) == p.caps
  {
    hide Encode; hide Decode; hide Ciphers; hide Akms; hide KeyLengths; hide Read16;
    DecodeEncode(f);
  }

  /** An element with capabilities 1 from a peer we have 0 stored for: accepted, and 0 stays. */
  lemma CapsLost()
    ensures var p := Params(AES_CCM, 0, {AES_CCM}, 0, 0, {PSK}, 0, 0);
            var r := Parse(Encode(Fields(VERSION, Sel(4), [Sel(4)], [Sel(2)], Le16(1))), p);
            r.Some? && r.value.caps == 0
  {
    hide Encode; hide Decode; hide Ciphers; hide Akms; hide KeyLengths; hide CipherOf; hide KeyMgmtOf;
    SuiteFacts();
    CipherSteps([], Sel(4), 0);
    CipherSteps([], Sel(2), 0);
    assert [] + [Sel(4)] == [Sel(4)] && [] + [Sel(2)] == [Sel(2)];
    var f := Fields(VERSION, Sel(4), [Sel(4)], [Sel(2)], Le16(1));
    var p := Params(AES_CCM, 0, {AES_CCM}, 0, 0, {PSK}, 0, 0);
    DecodeEncode(f);
    assert AES_CCM in Ciphers(f.ucast) * p.ucastSet && PSK in Akms(f.akm) * p.akmSet;
  }
}
