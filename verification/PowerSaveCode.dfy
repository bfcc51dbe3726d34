/** Power save at an access point, on the bitmap and the queues themselves. */
module PowerSaveCode {
  import opened PowerSave

  class TimAp {
    const tim: array<bool>   // ic_tim_bitmap, bit by bit
    var pending: int         // ic_ps_pending
    var stas: map<Id, Sta>
    var timUpdate: bool      // IEEE80211_F_TIMUPDATE
    ghost var stale: set<nat>     // ids whose bit was left behind
    ghost var shown: seq<bool>    // the bits the beacon was last updated with

    ghost function View(): Ps
      reads this, tim
    {
      Ps(tim[..], pending, stas)
    }

    /** Bits, queues and count are in step, and the beacon shows the bits unless the flag says otherwise. */
    ghost predicate Valid()
      reads this, tim
    {
      Inv(State(View(), stale)) && |shown| == tim.Length && (!timUpdate ==> shown == tim[..])
    }

    constructor (n: nat)
      ensures Valid() && View() == Fresh(n) && stale == {} && fresh(tim) && !timUpdate
    {
      tim := new bool[n](_ => false);
      pending, stas, timUpdate := 0, map[], false;
      stale, shown := {}, seq(n, _ => false);
      new;
      NoOnes(n);
      assert tim[..] == Fresh(n).bits;
    }

    /** The flag is set by every change of a bit. */
    twostate predicate Flagged()
      reads this, tim
    {
      shown == old(shown) && (timUpdate <==> old(timUpdate) || tim[..] != old(tim[..]))
    }

    /** ieee80211_set_tim. */
    method DoSetTim(aid: nat, on: bool)
      requires aid < tim.Length
      modifies this`pending, this`timUpdate, tim
      ensures View() == SetTim(old(View()), aid, on) && Flagged()
    {
      ghost var bits := tim[..];
      if on != tim[aid] {
        if on {
          tim[aid] := true;
          pending := pending + 1;
        } else {
          tim[aid] := false;
          pending := pending - 1;
        }
        assert tim[..][aid] != bits[aid];
        timUpdate := true;
      }
    }

    /** ieee80211_pwrsave: the frame goes behind those that wait, unless there are 50. */
    method PwrSave(id: Id, m: nat, age: int)
      requires Valid() && id in stas
      modifies this, tim
      ensures InRange(old(View()), id) && View() == Save(old(View()), id, m, age)
      ensures Waits(View(), id) == Waits(old(View()), id) + (if |old(stas[id].queue)| < 50 then [m] else [])
      ensures Valid() && Flagged() && stale == old(stale) - {old(stas[id].aid)}
    {
      hide Inv; hide Save;
      InvRange(State(View(), stale), id);
      SaveInv(State(View(), stale), id, m, age);
      StepInOrder(State(View(), stale), DoSave(id, m, age));
      stale := stale - {stas[id].aid};
      SaveCore(id, m, age);
    }

    method SaveCore(id: Id, m: nat, age: int)
      requires InRange(View(), id)
      modifies this`stas, this`pending, this`timUpdate, tim
      ensures View() == Save(old(View()), id, m, age) && Flagged()
    {
      var s := stas[id];
      if |s.queue| >= MAX_QUEUE {
        return;
      }
      stas := stas[id := s.(queue := s.queue + [Tagged(s.queue, m, age)])];
      if |stas[id].queue| == 1 {
        DoSetTim(s.aid, true);
      }
    }

    /** ieee80211_recv_pspoll; a poll with another id than the station's is discarded. The frame that waited longest is
        sent, and says whether more are saved. */
    method RecvPsPoll(id: Id, aid: nat) returns (out: seq<Fate>)
      requires Valid() && id in stas
      modifies this, tim
      ensures InRange(old(View()), id)
      ensures View() == if aid == old(stas[id].aid) then Poll(old(View()), id) else old(View())
      ensures Valid() && Flagged() && stale == (if aid == old(stas[id].aid) then old(stale) - {aid} else old(stale))
      ensures out == if aid == old(stas[id].aid) then Goes(old(View()), DoPoll(id)) else []
    {
      hide Inv; hide Poll;
      InvRange(State(View(), stale), id);
      PollInv(State(View(), stale), id);
      if aid == stas[id].aid {
        stale := stale - {aid};
      }
      out := PollCore(id, aid);
    }

    method PollCore(id: Id, aid: nat) returns (out: seq<Fate>)
      requires InRange(View(), id)
      modifies this`stas, this`pending, this`timUpdate, tim
      ensures View() == (if aid == old(stas[id].aid) then Poll(old(View()), id) else old(View())) && Flagged()
      ensures out == if aid == old(stas[id].aid) then Goes(old(View()), DoPoll(id)) else []
    {
      out := [];
      var s := stas[id];
      if aid != s.aid {
        return;
      }
      if s.queue == [] {
        DoSetTim(s.aid, false);
        return;
      }
      var head, rest := s.queue[0], s.queue[1..];
      stas := stas[id := s.(queue := rest)];
      var moreData := false;
      if |rest| != 0 {
        moreData := true;
      } else {
        DoSetTim(s.aid, false);
      }
      out := [Sent(head.m, moreData)];
    }

    /** ieee80211_node_pwrsave when power save ends: the saved frames go out in order, each but the last announcing
        another. */
    method WakeUp(id: Id) returns (out: seq<Fate>)
      requires Valid() && id in stas
      modifies this, tim
      ensures InRange(old(View()), id) && View() == Wake(old(View()), id)
      ensures Valid() && Flagged() && stale == old(stale) - {old(stas[id].aid)}
      ensures out == Goes(old(View()), DoWake(id))
    {
      hide Inv; hide Wake;
      InvRange(State(View(), stale), id);
      WakeInv(State(View(), stale), id);
      stale := stale - {stas[id].aid};
      out := WakeCore(id);
    }

    method WakeCore(id: Id) returns (out: seq<Fate>)
      requires InRange(View(), id)
      modifies this`stas, this`pending, this`timUpdate, tim
      ensures View() == Wake(old(View()), id) && Flagged()
      ensures out == Goes(old(View()), DoWake(id))
    {
      ghost var q0, ps := stas[id].queue, View();
      out := [];
      var s := stas[id];
      while stas[id].queue != []
        invariant tim[..] == old(tim[..]) && timUpdate == old(timUpdate)
        invariant |out| <= |q0| && id in stas && View() == WithQueue(ps, id, stas[id].queue)
                  && stas[id].queue == q0[|out|..]
        invariant forall k :: 0 <= k < |out| ==> out[k] == Sent(q0[k].m, k + 1 < |q0|)
        decreases |stas[id].queue|
      {
        var q := stas[id].queue;
        out := out + [Sent(q[0].m, |q| > 1)];
        stas := stas[id := s.(queue := q[1..])];
      }
      DoSetTim(s.aid, false);
    }

    /** The ageing step of ieee80211_timeout_stations. */
    method AgeQueue(id: Id) returns (out: seq<Fate>)
      requires Valid() && id in stas
      modifies this, tim
      ensures InRange(old(View()), id) && View() == Age(old(View()), id)
      ensures Valid() && Flagged() && stale == old(stale) && out == Goes(old(View()), DoAge(id))
    {
      hide Inv; hide Age;
      InvRange(State(View(), stale), id);
      AgeInv(State(View(), stale), id);
      out := AgeCore(id);
    }

    method AgeCore(id: Id) returns (out: seq<Fate>)
      requires InRange(View(), id)
      modifies this`stas, this`pending, this`timUpdate, tim
      ensures View() == Age(old(View()), id) && Flagged() && out == Goes(old(View()), DoAge(id))
    {
      var s := stas[id];
      out := [];
      if |s.queue| == 0 {
        assert stas == stas[id := s];
        return;
      }
      var q, discard := s.queue, 0;
      while q != [] && q[0].age < INACT_WAIT
        invariant Young(q) == Young(s.queue) && |out| == discard <= |s.queue| && q == s.queue[discard..]
        invariant forall k :: 0 <= k < |out| ==> out[k] == Expired(s.queue[k].m)
        decreases |q|
      {
        out := out + [Expired(q[0].m)];
        q := q[1..];
        discard := discard + 1;
      }
      if q != [] {
        q := [q[0].(age := q[0].age - INACT_WAIT)] + q[1..];
      }
      stas := stas[id := s.(queue := q)];
      if discard != 0 && q == [] {
        DoSetTim(s.aid, false);
      }
    }

    /** ieee80211_node_leave, the part that concerns power save: ni_associd is 0 when the queue is drained. */
    method NodeLeave(id: Id) returns (out: seq<Fate>)
      requires Valid() && id in stas
      modifies this, tim
      ensures InRange(old(View()), id) && View() == Leave(old(View()), id)
      ensures Valid() && Flagged() && out == Goes(old(View()), DoLeave(id))
      ensures var x := old(stas[id]); stale == if x.queue != [] then old(stale) + {x.aid} else old(stale)
    {
      hide Inv; hide Leave;
      InvRange(State(View(), stale), id);
      LeaveInv(State(View(), stale), id);
      var x := stas[id];
      if x.queue != [] {
        stale := stale + {x.aid};
      }
      out := LeaveCore(id);
    }

    method LeaveCore(id: Id) returns (out: seq<Fate>)
      requires InRange(View(), id)
      modifies this`stas, this`pending, this`timUpdate, tim
      ensures View() == Leave(old(View()), id) && Flagged() && out == Goes(old(View()), DoLeave(id))
    {
      var associd, qlen, q := 0, |stas[id].queue|, stas[id].queue;
      out := seq(qlen, k requires 0 <= k < |q| => Freed(q[k].m));
      stas := stas - {id};
      if qlen != 0 {
        DoSetTim(associd, false);
      }
    }

    /** A station takes an id that nobody has. */
    method NodeJoin(id: Id, aid: nat)
      requires Valid() && id !in stas && 0 < aid < tim.Length && !Owned(View(), aid)
      modifies this`stas
      ensures Valid() && View() == Join(old(View()), id, aid)
    {
      hide Inv;
      JoinInv(State(View(), stale), id, aid);
      stas := stas[id := Sta(aid, [])];
    }
  }
}
