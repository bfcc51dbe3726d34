/** Joining and leaving as ieee80211_node.c does it, with the flags that follow the 11g counters. */
module AssocCode {
  import opened Assoc

  class AccessPoint {
    const g: bool            // 11g mode
    const protmode: bool     // ic_protmode != IEEE80211_PROT_NONE
    const shslotCap: bool    // IEEE80211_C_SHSLOT
    const used: array<bool>  // ic_aid_bitmap
    var stas: map<Id, Sta>
    var assoc: nat           // ic_sta_assoc
    var longSlot: nat        // ic_longslotsta
    var nonErp: nat          // ic_nonerpsta
    var useProt: bool        // IEEE80211_F_USEPROT
    var shortSlot: bool      // IEEE80211_F_SHSLOT

    ghost function View(): Ap
      reads this, used
    {
      Ap(g, used[..], stas, assoc, longSlot, nonErp)
    }

    /** Protection is on exactly while a non-ERP station is associated, and short slots exactly while no long-slot
        station is; each if the access point is set up for it. */
    ghost predicate Valid()
      reads this, used
    {
      && Inv(State(View(), 0)) && MarksRight(View())
      && (g ==> useProt == (protmode && nonErp > 0) && shortSlot == (shslotCap && longSlot == 0))
    }

    constructor (maxAid: nat, g: bool, protmode: bool, shslotCap: bool)
      ensures Valid() && View() == Fresh(maxAid, g) && fresh(used)
    {
      this.g, this.protmode, this.shslotCap := g, protmode, shslotCap;
      used := new bool[maxAid](_ => false);
      stas, assoc, longSlot, nonErp := map[], 0, 0, 0;
      useProt, shortSlot := false, shslotCap;
      new;
      assert used[..] == Fresh(maxAid, g).used;
      FreshInv(maxAid, g);
    }

    /** A station authenticates: a new node. */
    method NewStation(id: Id, slot: bool, rates: bool)
      requires Valid() && id !in stas
      modifies this`stas
      ensures Valid() && View() == Enter(old(View()), id, slot, rates)
    {
      hide Inv;
      EnterInv(State(View(), 0), id, slot, rates);
      stas := stas[id := Sta(0, slot, rates, false)];
    }

    /** The search of the bitmap. */
    method SearchAid() returns (aid: nat)
      ensures aid == NewAid(View())
    {
      aid := 1;
      ghost var u := used[..];
      if used.Length == 0 {
        return 0;
      }
      while aid < used.Length
        invariant 1 <= aid <= used.Length && u == used[..] && FirstFree(u, 1) == FirstFree(u, aid)
      {
        if !used[aid] {
          break;
        }
        aid := aid + 1;
      }
    }

    /** ieee80211_node_join_11g. */
    method Join11g(id: Id)
      requires id in stas
      modifies this`stas, this`longSlot, this`nonErp, this`useProt, this`shortSlot
      ensures var s := old(stas)[id];
              && stas == old(stas)[id := s.(erp := s.erp || s.erpRates)]
              && longSlot == old(longSlot) + One(!s.shortSlot) && nonErp == old(nonErp) + One(!s.erpRates)
              && useProt == (old(useProt) || (!s.erpRates && protmode)) && shortSlot == (old(shortSlot) && s.shortSlot)
    {
      var s := stas[id];
      if !s.shortSlot {
        longSlot := longSlot + 1;
        shortSlot := false;
      }
      if !s.erpRates {
        nonErp := nonErp + 1;
        if protmode {
          useProt := true;
        }
        assert stas == stas[id := s];
      } else {
        stas := stas[id := s.(erp := true)];
      }
    }

    /** ieee80211_node_join; nothing happens to a station that has an id already. */
    method NodeJoin(id: Id) returns (ok: bool)
      requires Valid() && id in stas
      modifies this, used
      ensures Valid() && (ok <==> id in stas)
      ensures View() == if old(stas[id].aid) == 0 then Join(old(View()), id) else old(View())
    {
      hide Inv; hide MarksRight; hide NewAid;
      if stas[id].aid != 0 {
        return true;
      }
      ghost var ap := View();
      JoinInv(State(ap, 0), id);
      JoinMarks(ap, id);
      var aid := SearchAid();
      NewAidBound(ap);
      if aid >= used.Length {
        stas := stas - {id};
        return false;
      }
      ghost var s := stas[id];
      stas := stas[id := stas[id].(aid := aid)];
      used[aid] := true;
      assoc := assoc + 1;
      if g {
        Join11g(id);
      }
      assert stas == ap.stas[id := s.(aid := aid, erp := s.erp || (g && s.erpRates))];
      ok := true;
    }

    /** What ieee80211_recv_mgmt_assoc_req takes over from a station that is associated already. */
    method TakeOver(id: Id, slot: bool, rates: bool)
      requires Valid() && id in stas && stas[id].aid != 0
      modifies this`stas
      ensures View() == Reassoc(old(View()), id, slot, rates)
      ensures g ==> (CountsRight(View()) <==> slot == old(stas[id].shortSlot) && rates == old(stas[id].erpRates))
    {
      hide Number;
      TrackIsRight(State(View(), 0));
      if g {
        ReassocExactly(View(), id, slot, rates);
      }
      stas := stas[id := stas[id].(shortSlot := slot, erpRates := rates)];
    }

    /** ieee80211_node_leave_11g; the two counters are above zero when they are taken down. */
    method Leave11g(s: Sta)
      requires g && (!s.shortSlot ==> longSlot > 0) && (!s.erp ==> nonErp > 0)
      modifies this`longSlot, this`nonErp, this`useProt, this`shortSlot
      ensures longSlot == old(longSlot) - One(!s.shortSlot) && nonErp == old(nonErp) - One(!s.erp)
      ensures useProt == (old(useProt) && (s.erp || nonErp > 0))
      ensures shortSlot == (old(shortSlot) || (!s.shortSlot && longSlot == 0 && shslotCap))
    {
      if !s.shortSlot {
        longSlot := longSlot - 1;
        if longSlot == 0 && shslotCap {
          shortSlot := true;
        }
      }
      if !s.erp {
        nonErp := nonErp - 1;
        if nonErp == 0 {
          useProt := false;
        }
      }
    }

    /** ieee80211_node_leave. */
    method NodeLeave(id: Id)
      requires Valid() && id in stas
      modifies this, used
      ensures Valid() && old(stas[id].aid == 0 || (stas[id].aid < used.Length && assoc > 0))
              && View() == Leave(old(View()), id)
    {
      hide Inv; hide MarksRight;
      ghost var ap := View();
      LeaveInv(State(ap, 0), id);
      LeaveFacts(ap, id);
      var s := stas[id];
      if s.aid != 0 {
        used[s.aid] := false;
        assoc := assoc - 1;
        if g {
          Leave11g(s);
        }
      }
      stas := stas - {id};
    }
  }

  lemma JoinMarks(ap: Ap, id: Id)
    requires Inv(State(ap, 0)) && MarksRight(ap) && id in ap.stas && ap.stas[id].aid == 0
    ensures MarksRight(Join(ap, id))
  {
    hide Number; hide AidsRight; hide CountsTrack; hide NewAid;
  }

  lemma NewAidBound(ap: Ap)
    ensures NewAid(ap) <= MaxAid(ap)
  {
  }

  /** The assertions of ieee80211_node_leave_11g. */
  lemma LeaveFacts(ap: Ap, id: Id)
    requires Inv(State(ap, 0)) && MarksRight(ap) && id in ap.stas
    ensures var s := ap.stas[id];
            s.aid != 0 && ap.g ==> (!s.shortSlot ==> ap.longSlot > 0) && (!s.erp ==> ap.nonErp > 0)
    ensures var s := ap.stas[id];
            (s.aid == 0 || (s.aid < MaxAid(ap) && ap.assoc > 0)) && MarksRight(Leave(ap, id))
  {
    hide Number;
    LeaveCounts(State(ap, 0), id);
  }
}
