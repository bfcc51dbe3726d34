/** Reassembly as ieee80211_defrag does it, on the bytes of frames (section 9.5 of IEEE 802.11-2007). */
module Frags {
  import opened Blocks
  import opened Options

  const MORE: byte := 0x04

  /** A frame: at least its fixed header. */
  type Frame = f: seq<byte> | |f| >= 24 witness seq(24, _ => 0)

  /** A frame as it reaches reassembly, with the length of its header. */
  datatype Arrival = Arrival(id: nat, f: Frame, hdr: nat)

  type Piece = p: Arrival | 24 <= p.hdr <= |p.f| witness Arrival(0, seq(24, _ => 0), 24)

  predicate More(f: Frame)
  {
    f[1] & MORE != 0
  }

  /** The sequence control field: sequence number above, fragment number in the low four bits. */
  function SeqCtl(f: Frame): (n: nat)
    ensures n < 65536
  {
    Value(f[22]) + 256 * Value(f[23])
  }

  function FragNo(f: Frame): nat
  {
    SeqCtl(f) % 16
  }

  predicate SameStations(f: Frame, g: Frame)
  {
    f[4..10] == g[4..10] && f[10..16] == g[10..16]
  }

  /** The fields that reassembly reads (section 7.1.3 of IEEE 802.11-2007). */
  lemma FieldsAre(f: Frame, g: Frame)
    ensures (More(f) <==> f[1] & 0x04 != 0) && FragNo(f) == Value(f[22]) % 16
    ensures SeqCtl(f) == Value(f[22]) + 256 * Value(f[23]) && (SameStations(f, g) <==> f[4..16] == g[4..16])
  {
    hide Value;
    LowFour(Value(f[22]), Value(f[23]));
    assert f[4..16] == f[4..10] + f[10..16] && g[4..16] == g[4..10] + g[10..16];
    assert f[4..10] == f[4..16][..6] && f[10..16] == f[4..16][6..];
    assert g[4..10] == g[4..16][..6] && g[10..16] == g[4..16][6..];
  }

  lemma LowFour(a: nat, b: nat)
    ensures (a + 256 * b) % 16 == a % 16
  {
  }

  /** f with the sequence control of g. */
  function WithSeq(f: Frame, g: Frame): (r: Frame)
    ensures |r| == |f|
  {
    f[..22] + g[22..24] + f[24..]
  }

  /** What is held, what is returned. */
  datatype Outcome = Outcome(held: Option<Frame>, result: Option<Frame>)

  /** The new frame continues the held one. */
  predicate Continues(held: Frame, f: Frame)
  {
    SeqCtl(f) == SeqCtl(held) + 1 && SameStations(f, held)
  }

  /** ieee80211_defrag, on a node that is in a table unless `orphan`. */
  function Defrag(held: Option<Frame>, p: Piece, orphan: bool): Outcome
  {
    if !More(p.f) && FragNo(p.f) == 0 && held.None? then Outcome(None, Some(p.f))
    else if orphan then Outcome(held, None)
    else if held.Some? && Continues(held.value, p.f) then Keep(WithSeq(held.value, p.f) + p.f[p.hdr..], More(p.f))
    else if FragNo(p.f) != 0 then Outcome(None, None)
    else Keep(p.f, More(p.f))
  }

  function Keep(f: Frame, more: bool): Outcome {
    if more then Outcome(Some(f), None) else Outcome(None, Some(f))
  }

  // ---------------------------------------------------------------------------
  // Pieces that belong together

  /** The frame that pieces make up: the first, the payloads of the others, the sequence control of the last. */
  function Joined(ps: seq<Piece>): Frame
    requires ps != []
  {
    if |ps| == 1 then ps[0].f
    else
      var last := ps[|ps| - 1];
      WithSeq(Joined(ps[..|ps| - 1]), last.f) + last.f[last.hdr..]
  }

  /** Consecutive sequence control values from fragment 0 on, one pair of stations. */
  ghost predicate Linked(ps: seq<Piece>) {
    && ps != [] && FragNo(ps[0].f) == 0
    && (forall i :: 0 < i < |ps| ==> SeqCtl(ps[i].f) == SeqCtl(ps[i - 1].f) + 1)
    && (forall i :: 0 <= i < |ps| ==> SameStations(ps[i].f, ps[0].f))
  }

  /** All pieces announce another. */
  ghost predicate Unfinished(ps: seq<Piece>) {
    Linked(ps) && forall i :: 0 <= i < |ps| ==> More(ps[i].f)
  }

  /** All pieces but the last announce another. */
  ghost predicate Complete(ps: seq<Piece>) {
    Linked(ps) && forall i :: 0 <= i < |ps| ==> (More(ps[i].f) <==> i < |ps| - 1)
  }

  /** The header of the joined frame: stations of the first, sequence control of the last. */
  lemma {:induction false} JoinedHeader(ps: seq<Piece>)
    requires ps != []
    ensures SameStations(Joined(ps), ps[0].f) && SeqCtl(Joined(ps)) == SeqCtl(ps[|ps| - 1].f)
  {
    if |ps| > 1 {
      JoinedHeader(ps[..|ps| - 1]);
      var last := ps[|ps| - 1];
      var f := Joined(ps[..|ps| - 1]);
      WithSeqHeader(f, last.f, last.f[last.hdr..]);
    }
  }

  lemma WithSeqHeader(f: Frame, g: Frame, tail: seq<byte>)
    ensures var r := WithSeq(f, g) + tail; SameStations(r, f) && SeqCtl(r) == SeqCtl(g)
  {
    var r := WithSeq(f, g) + tail;
    assert r[4..10] == f[4..10] && r[10..16] == f[10..16];
  }

  /** Fragments of one run of sequence control values belong to one frame exactly up to sixteen. */
  lemma {:induction false} SameFrame(ps: seq<Piece>, i: nat)
    requires Linked(ps) && i < |ps|
    ensures SeqCtl(ps[i].f) == SeqCtl(ps[0].f) + i
    ensures SeqCtl(ps[i].f) / 16 == SeqCtl(ps[0].f) / 16 <==> i < 16
  {
    if i > 0 {
      SameFrame(ps, i - 1);
    }
  }

  // ---------------------------------------------------------------------------
  // Whole runs

  /** A frame arrives, or the reaper drops what is held. */
  datatype Event = Arrive(p: Piece, orphan: bool) | Reap

  /** What a node holds and has done: the pieces behind each frame it holds or returned, and those it freed. */
  datatype Node = Node(held: Option<Frame>, pieces: seq<Piece>, results: seq<Frame>,
                       made: seq<seq<Piece>>, freed: seq<Piece>)

  const FRESH: Node := Node(None, [], [], [], [])

  function Return(n: Node, f: Frame, ps: seq<Piece>): Node {
    n.(held := None, pieces := [], results := n.results + [f], made := n.made + [ps])
  }

  function Step(n: Node, e: Event): Node {
    match e
    case Reap => n.(held := None, pieces := [], freed := n.freed + n.pieces)
    case Arrive(p, orphan) =>
      var o := Defrag(n.held, p, orphan);
      if n.held.None? && o.result.Some? then Return(n, o.result.value, [p])
      else if orphan then n.(freed := n.freed + [p])
      else if n.held.Some? && Continues(n.held.value, p.f) then
        if o.result.Some? then Return(n, o.result.value, n.pieces + [p])
        else n.(held := o.held, pieces := n.pieces + [p])
      else
        var m := n.(freed := n.freed + n.pieces);
        if o.result.Some? then Return(m, o.result.value, [p])
        else if o.held.Some? then m.(held := o.held, pieces := [p])
        else m.(held := None, pieces := [], freed := m.freed + [p])
  }

  /** What is held does not go on with p, and is freed. */
  predicate DropsHeld(held: Option<Frame>, p: Piece, orphan: bool) {
    held.Some? && !orphan && !Continues(held.value, p.f)
  }

  /** p is freed: the node is in no table, or p starts nothing and continues nothing. */
  predicate DropsPiece(held: Option<Frame>, p: Piece, orphan: bool) {
    if held.None? && !More(p.f) && FragNo(p.f) == 0 then false
    else orphan || (FragNo(p.f) != 0 && !(held.Some? && Continues(held.value, p.f)))
  }

  /** The pieces that a step frees are those of the frames that ieee80211_defrag drops. */
  lemma StepFrees(n: Node, p: Piece, orphan: bool)
    requires n.held.None? ==> n.pieces == []
    ensures Step(n, Arrive(p, orphan)).freed ==
            n.freed + (if DropsHeld(n.held, p, orphan) then n.pieces else [])
            + (if DropsPiece(n.held, p, orphan) then [p] else [])
  {
    hide WithSeq; hide More; hide FragNo; hide Continues;
    assert n.freed + [] == n.freed;
  }

  /** Step tracks the pieces; what is held and returned is what ieee80211_defrag says. */
  lemma StepIsDefrag(n: Node, p: Piece, orphan: bool)
    ensures var o, m := Defrag(n.held, p, orphan), Step(n, Arrive(p, orphan));
            m.held == o.held && m.results == n.results + (if o.result.Some? then [o.result.value] else [])
  {
    hide WithSeq; hide More; hide FragNo; hide Continues;
  }

  function Run(es: seq<Event>): Node {
    if es == [] then FRESH else Step(Run(es[..|es| - 1]), es[|es| - 1])
  }

  function Arrived(es: seq<Event>): seq<Piece> {
    if es == [] then []
    else Arrived(es[..|es| - 1]) + match es[|es| - 1] case Arrive(p, _) => [p] case Reap => []
  }

  function Concat(pss: seq<seq<Piece>>): seq<Piece> {
    if pss == [] then [] else Concat(pss[..|pss| - 1]) + pss[|pss| - 1]
  }

  /** What holds in every reachable state. */
  ghost predicate Inv(n: Node, arrived: seq<Piece>) {
    && (if n.held.None? then n.pieces == [] else Unfinished(n.pieces) && n.held.value == Joined(n.pieces))
    && |n.results| == |n.made|
    && (forall i :: 0 <= i < |n.made| ==> Complete(n.made[i]) && n.results[i] == Joined(n.made[i]))
    && multiset(arrived) == multiset(n.pieces) + multiset(Concat(n.made)) + multiset(n.freed)
  }

  lemma ConcatSnoc(pss: seq<seq<Piece>>, ps: seq<Piece>)
    ensures Concat(pss + [ps]) == Concat(pss) + ps
  {
    assert (pss + [ps])[..|pss|] == pss;
  }

  lemma LinkedSnoc(ps: seq<Piece>, p: Piece)
    requires Unfinished(ps) && Continues(Joined(ps), p.f)
    ensures Joined(ps + [p]) == WithSeq(Joined(ps), p.f) + p.f[p.hdr..]
    ensures if More(p.f) then Unfinished(ps + [p]) else Complete(ps + [p])
  {
    hide Joined; hide More; hide SeqCtl; hide SameStations;
    JoinedHeader(ps);
    JoinedSnoc(ps, p);
    SameStationsTrans(p.f, Joined(ps), ps[0].f);
    var qs := ps + [p];
    assert forall i :: 0 <= i < |ps| ==> qs[i] == ps[i];
  }

  lemma JoinedSnoc(ps: seq<Piece>, p: Piece)
    requires ps != []
    ensures Joined(ps + [p]) == WithSeq(Joined(ps), p.f) + p.f[p.hdr..]
  {
    assert (ps + [p])[..|ps|] == ps;
  }

  lemma SameStationsTrans(f: Frame, g: Frame, h: Frame)
    requires SameStations(f, g) && SameStations(g, h)
    ensures SameStations(f, h)
  {
  }

  lemma OnePiece(p: Piece)
    requires FragNo(p.f) == 0
    ensures Joined([p]) == p.f && (if More(p.f) then Unfinished([p]) else Complete([p]))
  {
  }

  lemma ReturnInv(n: Node, f: Frame, ps: seq<Piece>, arrived: seq<Piece>)
    requires |n.results| == |n.made| && Complete(ps) && f == Joined(ps)
    requires forall i :: 0 <= i < |n.made| ==> Complete(n.made[i]) && n.results[i] == Joined(n.made[i])
    requires multiset(arrived) == multiset(ps) + multiset(Concat(n.made)) + multiset(n.freed)
    ensures Inv(Return(n, f, ps), arrived)
  {
    hide Complete; hide Joined; hide Concat;
    ConcatSnoc(n.made, ps);
  }

  /** Dropping what is held moves it to what was freed. */
  lemma ReapInv(n: Node, arrived: seq<Piece>)
    requires Inv(n, arrived)
    ensures Inv(n.(held := None, pieces := [], freed := n.freed + n.pieces), arrived)
  {
    hide Complete; hide Unfinished; hide Joined; hide Concat;
  }

  /** A frame that does not continue what is held, once that is dropped. */
  lemma AloneInv(n: Node, p: Piece, arrived: seq<Piece>)
    requires Inv(n, arrived) && n.held.None?
    ensures FragNo(p.f) != 0 ==> Inv(n.(freed := n.freed + [p]), arrived + [p])
    ensures FragNo(p.f) == 0 && More(p.f) ==> Inv(n.(held := Some(p.f), pieces := [p]), arrived + [p])
    ensures FragNo(p.f) == 0 && !More(p.f) ==> Inv(Return(n, p.f, [p]), arrived + [p])
  {
    hide Complete; hide Unfinished; hide Joined; hide Concat; hide More; hide FragNo; hide Return;
    if FragNo(p.f) == 0 {
      OnePiece(p);
      if !More(p.f) {
        ReturnInv(n, p.f, [p], arrived + [p]);
      }
    }
  }

  lemma ContinuesInv(n: Node, p: Piece, arrived: seq<Piece>)
    requires Inv(n, arrived) && n.held.Some? && Continues(n.held.value, p.f)
    ensures Inv(Step(n, Arrive(p, false)), arrived + [p])
  {
    hide Complete; hide Unfinished; hide Joined; hide Concat; hide Continues; hide More; hide FragNo; hide WithSeq;
    hide Return;
    LinkedSnoc(n.pieces, p);
    if !More(p.f) {
      ReturnInv(n, WithSeq(n.held.value, p.f) + p.f[p.hdr..], n.pieces + [p], arrived + [p]);
    }
  }

  lemma OrphanInv(n: Node, p: Piece, arrived: seq<Piece>)
    requires Inv(n, arrived)
    ensures Inv(n.(freed := n.freed + [p]), arrived + [p])
  {
    hide Complete; hide Unfinished; hide Joined; hide Concat;
  }

  lemma StepInv(n: Node, e: Event, arrived: seq<Piece>)
    requires Inv(n, arrived)
    ensures Inv(Step(n, e), arrived + match e case Arrive(p, _) => [p] case Reap => [])
  {
    hide Inv; hide Continues; hide More; hide FragNo; hide WithSeq; hide Return;
    var m := n.(held := None, pieces := [], freed := n.freed + n.pieces);
    match e
    case Reap =>
      ReapInv(n, arrived);
      assert arrived + [] == arrived;
    case Arrive(p, orphan) =>
      if n.held.None? {
        HeldNothing(n, arrived);
        AloneInv(n, p, arrived);
        OrphanInv(n, p, arrived);
      } else if orphan {
        OrphanInv(n, p, arrived);
      } else if Continues(n.held.value, p.f) {
        ContinuesInv(n, p, arrived);
      } else {
        ReapInv(n, arrived);
        AloneInv(m, p, arrived);
        ReturnDrops(n, m, p);
      }
  }

  lemma HeldNothing(n: Node, arrived: seq<Piece>)
    requires Inv(n, arrived) && n.held.None?
    ensures n.pieces == [] && n.freed + n.pieces == n.freed
  {
  }

  lemma ReturnDrops(n: Node, m: Node, p: Piece)
    requires m == n.(held := None, pieces := [], freed := n.freed + n.pieces)
    ensures Return(n.(freed := n.freed + n.pieces), p.f, [p]) == Return(m, p.f, [p])
  {
  }

  /** In every run, with whatever arrives: each frame returned joins received pieces with consecutive sequence
      control values from fragment 0 on, all but the last announcing another; and each piece that arrived was
      returned within a frame, is held, or was freed, exactly once. */
  lemma {:induction false} RunInv(es: seq<Event>)
    ensures Inv(Run(es), Arrived(es))
  {
    hide Inv; hide Step;
    if es == [] {
      assert Inv(FRESH, []) by { FreshInv(); }
    } else {
      RunInv(es[..|es| - 1]);
      StepInv(Run(es[..|es| - 1]), es[|es| - 1], Arrived(es[..|es| - 1]));
    }
  }

  lemma FreshInv()
    ensures Inv(FRESH, [])
  {
  }
}
