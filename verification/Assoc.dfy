/** Association ids and the 11g station counters: ieee80211_node_join and ieee80211_node_leave. */
module Assoc {
  type Id = nat

  /** A station in the table: its association id, 0 for none; what it can do; and whether it was marked ERP. */
  datatype Sta = Sta(aid: nat, shortSlot: bool, erpRates: bool, erp: bool)

  /** The access point; `used` is the bitmap of association ids. */
  datatype Ap = Ap(g: bool, used: seq<bool>, stas: map<Id, Sta>, assoc: nat, longSlot: int, nonErp: int)

  function MaxAid(ap: Ap): nat { |ap.used| }

  predicate IsAssoc(s: Sta) { s.aid != 0 }
  predicate IsLongSlot(s: Sta) { s.aid != 0 && !s.shortSlot }
  predicate IsNonErp(s: Sta) { s.aid != 0 && !s.erpRates }
  predicate IsUnmarked(s: Sta) { s.aid != 0 && !s.erp }

  /** How many stations are of a kind. */
  function Number(stas: map<Id, Sta>, kind: Sta -> bool): nat { |Members(stas, kind)| }

  function Members(stas: map<Id, Sta>, kind: Sta -> bool): set<Id> { set id | id in stas && kind(stas[id]) }

  /** Some station holds id k. */
  ghost predicate Taken(ap: Ap, k: nat) { exists id :: id in ap.stas && ap.stas[id].aid == k }

  /** Distinct ids from 1 on, and the bitmap is exactly the set of ids held. */
  ghost predicate AidsRight(ap: Ap) {
    && (forall id :: id in ap.stas ==> ap.stas[id].aid == 0 || ap.stas[id].aid < MaxAid(ap))
    && (forall a, b :: a in ap.stas && b in ap.stas && ap.stas[a].aid != 0 && ap.stas[a].aid == ap.stas[b].aid ==>
          a == b)
    && (forall k :: 0 <= k < MaxAid(ap) ==> (ap.used[k] <==> k != 0 && Taken(ap, k)))
  }

  /** The counters are the true counts; the 11g ones in 11g mode. */
  ghost predicate CountsRight(ap: Ap) {
    && ap.assoc == Number(ap.stas, IsAssoc)
    && (ap.g ==> ap.longSlot == Number(ap.stas, IsLongSlot) && ap.nonErp == Number(ap.stas, IsNonErp))
  }

  /** The access point, and how far the long-slot counter is off. */
  datatype State = State(ap: Ap, drift: int)

  /** What the counters are in any run: ids held, long-slot stations up to the drift, stations without the ERP mark. */
  ghost predicate CountsTrack(s: State) {
    && s.ap.assoc == Number(s.ap.stas, IsAssoc)
    && (s.ap.g ==>
          s.ap.longSlot == Number(s.ap.stas, IsLongSlot) + s.drift && s.ap.nonErp == Number(s.ap.stas, IsUnmarked))
  }

  /** Stations are marked ERP only while associated. */
  ghost predicate Marked(ap: Ap) { forall id :: id in ap.stas && ap.stas[id].aid == 0 ==> !ap.stas[id].erp }

  /** In 11g mode the mark is what the rates say. */
  ghost predicate MarksRight(ap: Ap) {
    ap.g ==> forall id :: id in ap.stas && ap.stas[id].aid != 0 ==> (ap.stas[id].erp <==> ap.stas[id].erpRates)
  }

  ghost predicate Inv(s: State) { AidsRight(s.ap) && CountsTrack(s) && Marked(s.ap) }

  /** The lowest free id from k on, or the bound. */
  function FirstFree(used: seq<bool>, k: nat): (a: nat)
    requires k <= |used|
    ensures k <= a <= |used| && (a < |used| ==> !used[a]) && forall j :: k <= j < a ==> used[j]
    decreases |used| - k
  {
    if k == |used| || !used[k] then k else FirstFree(used, k + 1)
  }

  /** The id a new station gets; none when there is none left. */
  function NewAid(ap: Ap): (a: nat)
    ensures a == MaxAid(ap) || (1 <= a < MaxAid(ap) && !ap.used[a])
    ensures a == MaxAid(ap) ==> forall j :: 1 <= j < MaxAid(ap) ==> ap.used[j]
  {
    if MaxAid(ap) == 0 then 0 else FirstFree(ap.used, 1)
  }

  /** ieee80211_node_join on a station without an id. A station that gets none is dropped from the table. */
  function Join(ap: Ap, id: Id): Ap
    requires id in ap.stas && ap.stas[id].aid == 0
  {
    var aid, s := NewAid(ap), ap.stas[id];
    if aid == MaxAid(ap) then ap.(stas := ap.stas - {id})
    else
      Ap(ap.g, ap.used[aid := true], ap.stas[id := s.(aid := aid, erp := s.erp || (ap.g && s.erpRates))], ap.assoc + 1,
         if ap.g && !s.shortSlot then ap.longSlot + 1 else ap.longSlot,
         if ap.g && !s.erpRates then ap.nonErp + 1 else ap.nonErp)
  }

  /** ieee80211_node_leave. */
  function Leave(ap: Ap, id: Id): Ap
    requires id in ap.stas && (ap.stas[id].aid == 0 || (ap.stas[id].aid < MaxAid(ap) && ap.assoc > 0))
  {
    var s := ap.stas[id];
    if s.aid == 0 then ap.(stas := ap.stas - {id})
    else
      Ap(ap.g, ap.used[s.aid := false], ap.stas - {id}, ap.assoc - 1,
         if ap.g && !s.shortSlot then ap.longSlot - 1 else ap.longSlot,
         if ap.g && !s.erp then ap.nonErp - 1 else ap.nonErp)
  }

  /** A new node for a station that authenticates. */
  function Enter(ap: Ap, id: Id, shortSlot: bool, erpRates: bool): Ap {
    ap.(stas := ap.stas[id := Sta(0, shortSlot, erpRates, false)])
  }

  /** An association request of a station that is associated already: capabilities and rates are taken over, and
      ieee80211_node_join does nothing. */
  function Reassoc(ap: Ap, id: Id, shortSlot: bool, erpRates: bool): Ap
    requires id in ap.stas
  {
    ap.(stas := ap.stas[id := ap.stas[id].(shortSlot := shortSlot, erpRates := erpRates)])
  }

  // ---------------------------------------------------------------------------

  lemma NewAidFree(ap: Ap)
    requires AidsRight(ap)
    ensures NewAid(ap) < MaxAid(ap) ==> forall id :: id in ap.stas ==> ap.stas[id].aid != NewAid(ap)
  {
  }

  lemma JoinAids(ap: Ap, id: Id)
    requires AidsRight(ap) && id in ap.stas && ap.stas[id].aid == 0
    ensures AidsRight(Join(ap, id))
  {
    hide NewAid;
    NewAidFree(ap);
    NewAidNonZero(ap);
    var n := Join(ap, id);
    forall k | 0 <= k < MaxAid(n) ensures n.used[k] <==> k != 0 && Taken(n, k) {
      if k != 0 {
        JoinTaken(ap, id, k);
      }
    }
  }

  lemma JoinTaken(ap: Ap, id: Id, k: nat)
    requires id in ap.stas && ap.stas[id].aid == 0 && k != 0
    ensures Taken(Join(ap, id), k) <==> Taken(ap, k) || (NewAid(ap) < MaxAid(ap) && k == NewAid(ap))
  {
    hide NewAid;
    var n := Join(ap, id);
    if Taken(ap, k) {
      var b :| b in ap.stas && ap.stas[b].aid == k;
      assert b in n.stas && n.stas[b].aid == k;
    }
    if NewAid(ap) < MaxAid(ap) && k == NewAid(ap) {
      assert n.stas[id].aid == k;
    }
  }

  lemma LeaveAids(ap: Ap, id: Id)
    requires AidsRight(ap) && id in ap.stas && (ap.stas[id].aid != 0 ==> ap.assoc > 0)
    ensures AidsRight(Leave(ap, id))
  {
    var n := Leave(ap, id);
    forall k | 0 <= k < MaxAid(n) ensures n.used[k] <==> k != 0 && Taken(n, k) {
      if n.used[k] {
        var b :| b in ap.stas && ap.stas[b].aid == k != 0;
        assert b in n.stas && n.stas[b].aid == k;
      }
    }
  }

  /** Refusal happens only when all ids are taken. */
  lemma RefusedOnlyWhenFull(ap: Ap, id: Id)
    requires AidsRight(ap) && id in ap.stas && ap.stas[id].aid == 0
    ensures id !in Join(ap, id).stas <==> forall k :: 1 <= k < MaxAid(ap) ==> Taken(ap, k)
  {
    if id in Join(ap, id).stas {
      NewAidFree(ap);
      var k := NewAid(ap);
      assert !Taken(ap, k);
    }
  }

  function One(b: bool): nat { if b then 1 else 0 }

  lemma NumberAfterRemoval(stas: map<Id, Sta>, id: Id, kind: Sta -> bool)
    requires id in stas
    ensures Number(stas - {id}, kind) == Number(stas, kind) - One(kind(stas[id]))
  {
    assert Members(stas - {id}, kind) == Members(stas, kind) - {id};
  }

  lemma NumberAfterUpdate(stas: map<Id, Sta>, id: Id, s: Sta, kind: Sta -> bool)
    requires id in stas
    ensures Number(stas[id := s], kind) == Number(stas, kind) - One(kind(stas[id])) + One(kind(s))
  {
    hide Number;
    NumberAfterRemoval(stas, id, kind);
    NumberAfterRemoval(stas[id := s], id, kind);
    assert stas[id := s] - {id} == stas - {id};
  }

  lemma JoinCounts(s: State, id: Id)
    requires CountsTrack(s) && Marked(s.ap) && id in s.ap.stas && s.ap.stas[id].aid == 0
    ensures CountsTrack(s.(ap := Join(s.ap, id)))
  {
    hide Number;
    if NewAid(s.ap) == MaxAid(s.ap) {
      NumberAfterRemoval(s.ap.stas, id, IsAssoc);
      NumberAfterRemoval(s.ap.stas, id, IsLongSlot);
      NumberAfterRemoval(s.ap.stas, id, IsUnmarked);
    } else {
      NewAidNonZero(s.ap);
      var x := Join(s.ap, id).stas[id];
      NumberAfterUpdate(s.ap.stas, id, x, IsAssoc);
      NumberAfterUpdate(s.ap.stas, id, x, IsLongSlot);
      NumberAfterUpdate(s.ap.stas, id, x, IsUnmarked);
    }
  }

  lemma NewAidNonZero(ap: Ap)
    ensures NewAid(ap) < MaxAid(ap) ==> NewAid(ap) != 0
  {
  }

  /** The leaving station is counted, so a counter that is taken down is above zero, if it has not drifted. */
  lemma LeaveCounts(s: State, id: Id)
    requires CountsTrack(s) && id in s.ap.stas && s.ap.stas[id].aid < MaxAid(s.ap) + One(s.ap.stas[id].aid == 0)
    ensures var x := s.ap.stas[id];
            x.aid != 0 ==>
              && s.ap.assoc > 0
              && (s.ap.g && !x.shortSlot ==> s.ap.longSlot > s.drift)
              && (s.ap.g && !x.erp ==> s.ap.nonErp > 0)
    ensures CountsTrack(s.(ap := Leave(s.ap, id)))
  {
    hide Number;
    NumberAfterRemoval(s.ap.stas, id, IsAssoc);
    NumberAfterRemoval(s.ap.stas, id, IsLongSlot);
    NumberAfterRemoval(s.ap.stas, id, IsUnmarked);
  }

  lemma ReassocCounts(s: State, id: Id, shortSlot: bool, erpRates: bool)
    requires CountsTrack(s) && id in s.ap.stas && s.ap.stas[id].aid != 0
    ensures CountsTrack(State(Reassoc(s.ap, id, shortSlot, erpRates),
                              s.drift + One(!s.ap.stas[id].shortSlot) - One(!shortSlot)))
  {
    hide Number;
    var x := s.ap.stas[id].(shortSlot := shortSlot, erpRates := erpRates);
    NumberAfterUpdate(s.ap.stas, id, x, IsAssoc);
    NumberAfterUpdate(s.ap.stas, id, x, IsLongSlot);
    NumberAfterUpdate(s.ap.stas, id, x, IsUnmarked);
  }

  /** Taking over other capabilities or rates from an associated station breaks the counts, exactly when they change. */
  lemma ReassocExactly(ap: Ap, id: Id, shortSlot: bool, erpRates: bool)
    requires CountsRight(ap) && ap.g && id in ap.stas && ap.stas[id].aid != 0
    ensures CountsRight(Reassoc(ap, id, shortSlot, erpRates)) <==>
              shortSlot == ap.stas[id].shortSlot && erpRates == ap.stas[id].erpRates
  {
    hide Number;
    var x := ap.stas[id].(shortSlot := shortSlot, erpRates := erpRates);
    NumberAfterUpdate(ap.stas, id, x, IsAssoc);
    NumberAfterUpdate(ap.stas, id, x, IsLongSlot);
    NumberAfterUpdate(ap.stas, id, x, IsNonErp);
  }

  /** Without drift, and with marks that are what the rates say, the counters are the true counts. */
  lemma TrackIsRight(s: State)
    requires CountsTrack(s) && s.drift == 0 && MarksRight(s.ap)
    ensures CountsRight(s.ap)
  {
    if s.ap.g {
      assert Members(s.ap.stas, IsUnmarked) == Members(s.ap.stas, IsNonErp);
    }
  }

  // ---------------------------------------------------------------------------
  // Runs

  datatype Event =
    | DoEnter(id: Id, shortSlot: bool, erpRates: bool)
    | DoJoin(id: Id)
    | DoReassoc(id: Id, shortSlot: bool, erpRates: bool)
    | DoLeave(id: Id)

  /** New nodes are new; the others are stations of the table. */
  predicate Possible(ap: Ap, e: Event) {
    match e
    case DoEnter(id, _, _) => id !in ap.stas
    case DoJoin(id) => id in ap.stas && ap.stas[id].aid == 0
    case DoReassoc(id, _, _) => id in ap.stas && ap.stas[id].aid != 0
    case DoLeave(id) => id in ap.stas
  }

  /** One event; one that is not possible does not happen. */
  ghost function Step(s: State, e: Event): (t: State)
    requires Inv(s)
    ensures Inv(t) && MaxAid(t.ap) == MaxAid(s.ap) && t.ap.g == s.ap.g
  {
    if !Possible(s.ap, e) then s
    else match e
      case DoEnter(id, slot, rates) => EnterInv(s, id, slot, rates); s.(ap := Enter(s.ap, id, slot, rates))
      case DoJoin(id) => JoinInv(s, id); s.(ap := Join(s.ap, id))
      case DoReassoc(id, slot, rates) =>
        ReassocInv(s, id, slot, rates);
        State(Reassoc(s.ap, id, slot, rates), s.drift + One(!s.ap.stas[id].shortSlot) - One(!slot))
      case DoLeave(id) => LeaveInv(s, id); s.(ap := Leave(s.ap, id))
  }

  lemma EnterAids(ap: Ap, id: Id, shortSlot: bool, erpRates: bool)
    requires AidsRight(ap) && id !in ap.stas
    ensures AidsRight(Enter(ap, id, shortSlot, erpRates))
  {
    var n := Enter(ap, id, shortSlot, erpRates);
    forall k | 0 <= k < MaxAid(n) ensures n.used[k] <==> k != 0 && Taken(n, k) {
      if ap.used[k] {
        var b :| b in ap.stas && ap.stas[b].aid == k;
        assert b in n.stas && n.stas[b].aid == k;
      }
    }
  }

  lemma EnterInv(s: State, id: Id, shortSlot: bool, erpRates: bool)
    requires Inv(s) && id !in s.ap.stas
    ensures Inv(s.(ap := Enter(s.ap, id, shortSlot, erpRates)))
  {
    hide Number; hide AidsRight;
    var n := Enter(s.ap, id, shortSlot, erpRates);
    assert n.stas - {id} == s.ap.stas;
    EnterAids(s.ap, id, shortSlot, erpRates);
    NumberAfterRemoval(n.stas, id, IsAssoc);
    NumberAfterRemoval(n.stas, id, IsLongSlot);
    NumberAfterRemoval(n.stas, id, IsUnmarked);
  }

  lemma JoinInv(s: State, id: Id)
    requires Inv(s) && id in s.ap.stas && s.ap.stas[id].aid == 0
    ensures Inv(s.(ap := Join(s.ap, id)))
  {
    hide AidsRight; hide CountsTrack;
    JoinAids(s.ap, id);
    JoinCounts(s, id);
    NewAidNonZero(s.ap);
  }

  lemma LeaveInv(s: State, id: Id)
    requires Inv(s) && id in s.ap.stas
    ensures var x := s.ap.stas[id]; x.aid == 0 || (x.aid < MaxAid(s.ap) && s.ap.assoc > 0)
    ensures Inv(s.(ap := Leave(s.ap, id)))
  {
    hide Number;
    LeaveCounts(s, id);
    LeaveAids(s.ap, id);
  }

  lemma ReassocInv(s: State, id: Id, shortSlot: bool, erpRates: bool)
    requires Inv(s) && id in s.ap.stas && s.ap.stas[id].aid != 0
    ensures Inv(State(Reassoc(s.ap, id, shortSlot, erpRates),
                      s.drift + One(!s.ap.stas[id].shortSlot) - One(!shortSlot)))
  {
    hide Number; hide CountsTrack;
    ReassocCounts(s, id, shortSlot, erpRates);
    var ap, n := s.ap, Reassoc(s.ap, id, shortSlot, erpRates);
    forall k | 0 <= k < MaxAid(n) ensures n.used[k] <==> k != 0 && Taken(n, k) {
      if ap.used[k] {
        var b :| b in ap.stas && ap.stas[b].aid == k;
        assert n.stas[b].aid == k;
      }
    }
  }

  /** Nobody associated. */
  function Fresh(maxAid: nat, g: bool): Ap { Ap(g, seq(maxAid, _ => false), map[], 0, 0, 0) }

  lemma FreshInv(maxAid: nat, g: bool)
    ensures Inv(State(Fresh(maxAid, g), 0))
  {
    var none: map<Id, Sta> := map[];
    assert Members(none, IsAssoc) == {} && Members(none, IsLongSlot) == {} && Members(none, IsUnmarked) == {};
  }

  /** Any events, from an access point nobody is associated with. */
  ghost function Run(maxAid: nat, g: bool, es: seq<Event>): (s: State)
    ensures Inv(s) && MaxAid(s.ap) == maxAid && s.ap.g == g
    decreases |es|
  {
    FreshInv(maxAid, g);
    if es == [] then State(Fresh(maxAid, g), 0) else Step(Run(maxAid, g, es[..|es| - 1]), es[|es| - 1])
  }

  /** In every run of entering, joining, reassociating and leaving: associated stations hold distinct ids from 1 to
      max - 1, the bitmap is exactly the set of ids held, and ic_sta_assoc is their number. */
  lemma InEveryRun(maxAid: nat, g: bool, es: seq<Event>, a: Id, b: Id, k: nat)
    ensures var ap := Run(maxAid, g, es).ap;
            && (a in ap.stas && ap.stas[a].aid != 0 ==> 1 <= ap.stas[a].aid < maxAid)
            && (a in ap.stas && b in ap.stas && ap.stas[a].aid != 0 && ap.stas[a].aid == ap.stas[b].aid ==> a == b)
            && (k < maxAid ==> (ap.used[k] <==> k != 0 && Taken(ap, k)))
            && ap.assoc == Number(ap.stas, IsAssoc)
  {
    hide Run; hide Number; hide Taken;
    var s := Run(maxAid, g, es);
    assert Inv(s);
  }

  lemma RunStart(maxAid: nat, g: bool)
    ensures Run(maxAid, g, []) == State(Fresh(maxAid, g), 0)
  {
  }

  lemma RunNext(maxAid: nat, g: bool, es: seq<Event>, k: nat)
    requires k < |es|
    ensures Run(maxAid, g, es[..k + 1]) == Step(Run(maxAid, g, es[..k]), es[k])
  {
    assert es[..k + 1][..k] == es[..k];
  }

  /** An associated station comes back with other capabilities or rates. */
  predicate Changes(ap: Ap, e: Event) {
    e.DoReassoc? && e.id in ap.stas && ap.stas[e.id].aid != 0
    && (e.shortSlot != ap.stas[e.id].shortSlot || e.erpRates != ap.stas[e.id].erpRates)
  }

  ghost predicate SteadyRun(maxAid: nat, g: bool, es: seq<Event>) {
    forall k :: 0 <= k < |es| ==> !Changes(Run(maxAid, g, es[..k]).ap, es[k])
  }

  /** A step without such a change keeps the counters from drifting and the marks right. */
  lemma SteadyStep(s: State, e: Event)
    requires Inv(s) && s.drift == 0 && MarksRight(s.ap) && !Changes(s.ap, e)
    ensures Step(s, e).drift == 0 && MarksRight(Step(s, e).ap)
  {
    hide Number; hide AidsRight; hide CountsTrack; hide NewAid;
  }

  lemma {:induction false} SteadySoFar(maxAid: nat, g: bool, es: seq<Event>, k: nat)
    requires SteadyRun(maxAid, g, es) && k <= |es|
    ensures var s := Run(maxAid, g, es[..k]); s.drift == 0 && MarksRight(s.ap) && CountsRight(s.ap)
  {
    hide Run; hide Step; hide AidsRight; hide CountsTrack; hide CountsRight;
    if k == 0 {
      RunStart(maxAid, g);
      assert es[..0] == [];
    } else {
      SteadySoFar(maxAid, g, es, k - 1);
      RunNext(maxAid, g, es, k - 1);
      SteadyStep(Run(maxAid, g, es[..k - 1]), es[k - 1]);
    }
    TrackIsRight(Run(maxAid, g, es[..k]));
  }

  lemma ChangeBreaks(s: State, e: Event)
    requires Inv(s) && s.ap.g && Changes(s.ap, e) && CountsRight(s.ap)
    ensures !CountsRight(Step(s, e).ap)
  {
    hide CountsRight; hide Number;
    ReassocExactly(s.ap, e.id, e.shortSlot, e.erpRates);
  }

  /** In 11g mode, the station, long-slot and non-ERP counters are the true counts all through a run if and only if no
      associated station comes back with other slot capabilities or rates. */
  lemma CountsExactly(maxAid: nat, es: seq<Event>)
    ensures (forall k :: 0 <= k <= |es| ==> CountsRight(Run(maxAid, true, es[..k]).ap)) <==> SteadyRun(maxAid, true, es)
  {
    hide Run; hide Step; hide Inv; hide CountsRight; hide Changes;
    if SteadyRun(maxAid, true, es) {
      forall k | 0 <= k <= |es| ensures CountsRight(Run(maxAid, true, es[..k]).ap) { SteadySoFar(maxAid, true, es, k); }
    } else {
      var k :| 0 <= k < |es| && Changes(Run(maxAid, true, es[..k]).ap, es[k]);
      RunNext(maxAid, true, es, k);
      if CountsRight(Run(maxAid, true, es[..k]).ap) {
        ChangeBreaks(Run(maxAid, true, es[..k]), es[k]);
      }
    }
  }

  /** A station joins with short slots, comes back without, and leaves: the counter that the leave takes down is
      zero. */
  lemma BogusCount()
    ensures var ap := Run(4, true, [DoEnter(7, true, true), DoJoin(7), DoReassoc(7, false, true)]).ap;
            7 in ap.stas && ap.stas[7].aid == 1 && !ap.stas[7].shortSlot && ap.longSlot == 0
  {
    hide Run; hide Inv;
    var es := [DoEnter(7, true, true), DoJoin(7), DoReassoc(7, false, true)];
    assert es[..0] == [] && es[..3] == es;
    RunStart(4, true);
    RunNext(4, true, es, 0); RunNext(4, true, es, 1); RunNext(4, true, es, 2);
    var ap := Run(4, true, es[..1]).ap;
    assert ap.stas[7] == Sta(0, true, true, false) && ap.used == Fresh(4, true).used;
    assert NewAid(ap) == 1;
  }
}
