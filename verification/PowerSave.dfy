/** Power save at an access point: the queues of sleeping stations, the TIM bitmap and its count. */
module PowerSave {
  type Id = nat

  const MAX_QUEUE: nat := 50
  const INACT_WAIT: int := 15

  /** A saved frame: the mbuf, by its address, and the age stored with it. */
  datatype Frame = Frame(m: nat, age: int)

  /** An associated station: its id, and the frames saved for it. */
  datatype Sta = Sta(aid: nat, queue: seq<Frame>)

  /** bits: ic_tim_bitmap; pending: ic_ps_pending. */
  datatype Ps = Ps(bits: seq<bool>, pending: int, stas: map<Id, Sta>)

  function Ones(bits: seq<bool>): nat {
    if bits == [] then 0 else (if bits[0] then 1 else 0) + Ones(bits[1..])
  }

  lemma {:induction false} OnesUpdate(bits: seq<bool>, k: nat, b: bool)
    requires k < |bits|
    ensures Ones(bits[k := b]) == Ones(bits) + (if b then 1 else 0) - (if bits[k] then 1 else 0)
  {
    if k > 0 {
      assert bits[k := b][1..] == bits[1..][k - 1 := b];
      OnesUpdate(bits[1..], k - 1, b);
    }
  }

  /** ieee80211_set_tim. */
  function SetTim(ps: Ps, aid: nat, on: bool): Ps
    requires aid < |ps.bits|
  {
    if on == ps.bits[aid] then ps
    else ps.(bits := ps.bits[aid := on], pending := if on then ps.pending + 1 else ps.pending - 1)
  }

  function WithQueue(ps: Ps, id: Id, q: seq<Frame>): Ps
    requires id in ps.stas
  {
    ps.(stas := ps.stas[id := ps.stas[id].(queue := q)])
  }

  predicate InRange(ps: Ps, id: Id) { id in ps.stas && 0 < ps.stas[id].aid < |ps.bits| }

  /** _IEEE80211_NODE_SAVEQ_ENQUEUE: ages are stored as differences to the frame before. */
  function Tagged(q: seq<Frame>, m: nat, age: int): Frame {
    Frame(m, if q == [] then age else age - q[|q| - 1].age)
  }

  /** ieee80211_pwrsave: save a frame, or drop it when the queue is full. */
  function Save(ps: Ps, id: Id, m: nat, age: int): Ps
    requires InRange(ps, id)
  {
    var s := ps.stas[id];
    if |s.queue| >= MAX_QUEUE then ps
    else
      var n := WithQueue(ps, id, s.queue + [Tagged(s.queue, m, age)]);
      if |s.queue| == 0 then SetTim(n, s.aid, true) else n
  }

  /** ieee80211_recv_pspoll: send the first frame. */
  function Poll(ps: Ps, id: Id): Ps
    requires InRange(ps, id)
  {
    var s := ps.stas[id];
    if s.queue == [] then SetTim(ps, s.aid, false)
    else
      var n := WithQueue(ps, id, s.queue[1..]);
      if |s.queue| == 1 then SetTim(n, s.aid, false) else n
  }

  /** ieee80211_node_pwrsave when the station wakes up: everything is sent. */
  function Wake(ps: Ps, id: Id): Ps
    requires InRange(ps, id)
  {
    SetTim(WithQueue(ps, id, []), ps.stas[id].aid, false)
  }

  /** The frames that are left when the old ones at the head go. */
  function Young(q: seq<Frame>): (r: seq<Frame>)
    ensures |r| <= |q|
  {
    if q == [] then []
    else if q[0].age < INACT_WAIT then Young(q[1..])
    else [q[0].(age := q[0].age - INACT_WAIT)] + q[1..]
  }

  /** The ageing step of ieee80211_timeout_stations. */
  function Age(ps: Ps, id: Id): Ps
    requires InRange(ps, id)
  {
    var s := ps.stas[id];
    var n := WithQueue(ps, id, Young(s.queue));
    if s.queue != [] && Young(s.queue) == [] then SetTim(n, s.aid, false) else n
  }

  /** A station takes an id that nobody has. */
  function Join(ps: Ps, id: Id, aid: nat): Ps { ps.(stas := ps.stas[id := Sta(aid, [])]) }

  /** ieee80211_node_leave: the id is given up first, so that draining the queue clears bit 0 of the bitmap. */
  function Leave(ps: Ps, id: Id): Ps
    requires id in ps.stas && |ps.bits| > 0
  {
    var n := if ps.stas[id].queue != [] then SetTim(ps, 0, false) else ps;
    n.(stas := n.stas - {id})
  }

  // ---------------------------------------------------------------------------
  // Bits and queues

  /** With the ids whose bit was left behind by a station that is gone. */
  datatype State = State(ps: Ps, stale: set<nat>)

  ghost predicate Owned(ps: Ps, k: nat) { exists id :: id in ps.stas && ps.stas[id].aid == k }

  /** Frames wait for the station with id k. */
  ghost predicate Waiting(ps: Ps, k: nat) {
    exists id :: id in ps.stas && ps.stas[id].aid == k && ps.stas[id].queue != []
  }

  ghost predicate Distinct(ps: Ps) {
    && (forall id :: id in ps.stas ==> 0 < ps.stas[id].aid < |ps.bits|)
    && (forall a, b :: a in ps.stas && b in ps.stas && ps.stas[a].aid == ps.stas[b].aid ==> a == b)
  }

  /** A bit is set exactly when frames wait or it was left behind, and never for both reasons. */
  ghost predicate InStep(s: State) {
    && (forall k :: 0 <= k < |s.ps.bits| ==> (s.ps.bits[k] <==> k in s.stale || Waiting(s.ps, k)))
    && (forall k :: k in s.stale ==> 0 < k < |s.ps.bits| && !Waiting(s.ps, k))
  }

  /** The count is that of the bits; stations have distinct ids; bits and queues are in step. */
  ghost predicate Inv(s: State) { s.ps.pending == Ones(s.ps.bits) && Distinct(s.ps) && InStep(s) }

  lemma SetTimCounts(ps: Ps, aid: nat, on: bool)
    requires aid < |ps.bits| && ps.pending == Ones(ps.bits)
    ensures var n := SetTim(ps, aid, on); n.bits == ps.bits[aid := on] && n.pending == Ones(n.bits) && n.stas == ps.stas
  {
    OnesUpdate(ps.bits, aid, on);
    if on == ps.bits[aid] {
      assert ps.bits[aid := on] == ps.bits;
    }
  }

  /** A new queue for one station is a matter of its own id only. */
  lemma WaitingAfter(ps: Ps, id: Id, q: seq<Frame>, k: nat)
    requires Distinct(ps) && id in ps.stas
    ensures Waiting(WithQueue(ps, id, q), k) <==> if k == ps.stas[id].aid then q != [] else Waiting(ps, k)
  {
    var n := WithQueue(ps, id, q);
    if Waiting(ps, k) {
      var b :| b in ps.stas && ps.stas[b].aid == k && ps.stas[b].queue != [];
      assert b != id ==> n.stas[b] == ps.stas[b];
    }
    assert n.stas[id].aid == ps.stas[id].aid;
  }

  /** Setting the bit to what the new queue asks for keeps step, and a bit that was left behind is taken up. */
  lemma QueueInv(s: State, id: Id, q: seq<Frame>)
    requires Inv(s) && id in s.ps.stas
    ensures var aid := s.ps.stas[id].aid; Inv(State(SetTim(WithQueue(s.ps, id, q), aid, q != []), s.stale - {aid}))
  {
    var aid, m := s.ps.stas[id].aid, WithQueue(s.ps, id, q);
    SetTimCounts(m, aid, q != []);
    var n := SetTim(m, aid, q != []);
    forall k ensures Waiting(n, k) <==> if k == aid then q != [] else Waiting(s.ps, k) {
      assert Waiting(n, k) <==> Waiting(m, k);
      WaitingAfter(s.ps, id, q, k);
    }
  }

  /** Frames wait before and after: the bit is set already. */
  lemma SameBit(s: State, id: Id, q: seq<Frame>)
    requires Inv(s) && id in s.ps.stas && q != [] && s.ps.stas[id].queue != []
    ensures var aid := s.ps.stas[id].aid;
            aid !in s.stale && SetTim(WithQueue(s.ps, id, q), aid, true) == WithQueue(s.ps, id, q)
  {
    assert Waiting(s.ps, s.ps.stas[id].aid);
  }

  lemma InvRange(s: State, id: Id)
    requires Inv(s) && id in s.ps.stas
    ensures InRange(s.ps, id)
  {
  }

  lemma SaveInv(s: State, id: Id, m: nat, age: int)
    requires Inv(s) && id in s.ps.stas
    ensures Inv(State(Save(s.ps, id, m, age), s.stale - {s.ps.stas[id].aid}))
  {
    var q := s.ps.stas[id].queue;
    QueueInv(s, id, q + [Tagged(q, m, age)]);
    if q != [] {
      SameBit(s, id, q + [Tagged(q, m, age)]);
      assert s.stale - {s.ps.stas[id].aid} == s.stale;
    }
  }

  lemma PollInv(s: State, id: Id)
    requires Inv(s) && id in s.ps.stas
    ensures Inv(State(Poll(s.ps, id), s.stale - {s.ps.stas[id].aid}))
  {
    var q := s.ps.stas[id].queue;
    if q == [] {
      assert WithQueue(s.ps, id, []) == s.ps;
      QueueInv(s, id, []);
    } else {
      QueueInv(s, id, q[1..]);
      if |q| > 1 {
        SameBit(s, id, q[1..]);
      }
    }
  }

  lemma WakeInv(s: State, id: Id)
    requires Inv(s) && id in s.ps.stas
    ensures Inv(State(Wake(s.ps, id), s.stale - {s.ps.stas[id].aid}))
  {
    QueueInv(s, id, []);
  }

  lemma AgeInv(s: State, id: Id)
    requires Inv(s) && id in s.ps.stas
    ensures Inv(State(Age(s.ps, id), s.stale))
  {
    var aid, q := s.ps.stas[id].aid, s.ps.stas[id].queue;
    if q == [] {
      assert WithQueue(s.ps, id, []) == s.ps;
    } else {
      SameBit(s, id, q);
      assert s.stale - {aid} == s.stale;
      QueueInv(s, id, Young(q));
      if Young(q) != [] {
        SameBit(s, id, Young(q));
      }
    }
  }

  /** A station that leaves while frames wait leaves its bit behind: its id is cleared before the bit would be. */
  lemma LeaveInv(s: State, id: Id)
    requires Inv(s) && id in s.ps.stas
    ensures var x := s.ps.stas[id]; Inv(State(Leave(s.ps, id), if x.queue != [] then s.stale + {x.aid} else s.stale))
  {
    var n, x := Leave(s.ps, id), s.ps.stas[id];
    SetTimCounts(s.ps, 0, false);
    assert !Waiting(s.ps, 0) && s.ps.bits[0 := false] == s.ps.bits;
    forall k ensures Waiting(n, k) <==> k != x.aid && Waiting(s.ps, k) {
      if k != x.aid && Waiting(s.ps, k) {
        var b :| b in s.ps.stas && s.ps.stas[b].aid == k && s.ps.stas[b].queue != [];
        assert b in n.stas && n.stas[b] == s.ps.stas[b];
      }
    }
    assert x.queue != [] <==> Waiting(s.ps, x.aid);
  }

  lemma JoinInv(s: State, id: Id, aid: nat)
    requires Inv(s) && id !in s.ps.stas && 0 < aid < |s.ps.bits| && !Owned(s.ps, aid)
    ensures Inv(State(Join(s.ps, id, aid), s.stale))
  {
    var n := Join(s.ps, id, aid);
    assert forall b :: b in s.ps.stas ==> n.stas[b] == s.ps.stas[b] && s.ps.stas[b].aid != aid;
    forall k ensures Waiting(n, k) <==> Waiting(s.ps, k) {
      if Waiting(s.ps, k) {
        var b :| b in s.ps.stas && s.ps.stas[b].aid == k && s.ps.stas[b].queue != [];
        assert b in n.stas;
      }
    }
  }

  // ---------------------------------------------------------------------------
  // Runs

  datatype Event =
    | DoSave(id: Id, m: nat, age: int)
    | DoPoll(id: Id)
    | DoWake(id: Id)
    | DoAge(id: Id)
    | DoJoin(id: Id, aid: nat)
    | DoLeave(id: Id)

  /** Stations act while associated, and get ids that are free. */
  ghost predicate Possible(ps: Ps, e: Event) {
    match e
    case DoJoin(id, aid) => id !in ps.stas && 0 < aid < |ps.bits| && !Owned(ps, aid)
    case _ => e.id in ps.stas
  }

  /** One event; one that is not possible does not happen. */
  ghost function Step(s: State, e: Event): (t: State)
    requires Inv(s)
    ensures Inv(t) && |t.ps.bits| == |s.ps.bits|
  {
    if !Possible(s.ps, e) then s
    else match e
      case DoSave(id, m, age) => SaveInv(s, id, m, age); State(Save(s.ps, id, m, age), s.stale - {s.ps.stas[id].aid})
      case DoPoll(id) => PollInv(s, id); State(Poll(s.ps, id), s.stale - {s.ps.stas[id].aid})
      case DoWake(id) => WakeInv(s, id); State(Wake(s.ps, id), s.stale - {s.ps.stas[id].aid})
      case DoAge(id) => AgeInv(s, id); State(Age(s.ps, id), s.stale)
      case DoJoin(id, aid) => JoinInv(s, id, aid); State(Join(s.ps, id, aid), s.stale)
      case DoLeave(id) =>
        LeaveInv(s, id);
        State(Leave(s.ps, id), if s.ps.stas[id].queue != [] then s.stale + {s.ps.stas[id].aid} else s.stale)
  }

  function Fresh(n: nat): Ps { Ps(seq(n, _ => false), 0, map[]) }

  lemma {:induction false} NoOnes(n: nat)
    ensures Ones(seq(n, _ => false)) == 0
  {
    if n > 0 {
      var s: seq<bool> := seq(n, _ => false);
      assert s[1..] == seq(n - 1, _ => false);
      NoOnes(n - 1);
    }
  }

  /** Any events, from the start of an access point with ids below n. */
  ghost function Run(n: nat, es: seq<Event>): (s: State)
    ensures Inv(s) && |s.ps.bits| == n
    decreases |es|
  {
    NoOnes(n);
    if es == [] then State(Fresh(n), {}) else Step(Run(n, es[..|es| - 1]), es[|es| - 1])
  }

  /** In every run: the count is that of the bits set, and the bit of a station is set exactly when frames wait for
      it or the bit was left behind for its id. */
  lemma InEveryRun(n: nat, es: seq<Event>, id: Id)
    ensures var s := Run(n, es);
            && s.ps.pending == Ones(s.ps.bits)
            && (id in s.ps.stas ==>
                  var x := s.ps.stas[id];
                  0 < x.aid < n && (s.ps.bits[x.aid] <==> x.queue != [] || x.aid in s.stale))
  {
    var ps := Run(n, es).ps;
    if id in ps.stas {
      assert Waiting(ps, ps.stas[id].aid) <==> ps.stas[id].queue != [];
    }
  }

  /** A station leaves while frames wait for it. */
  predicate Untidy(ps: Ps, e: Event) { e.DoLeave? && e.id in ps.stas && ps.stas[e.id].queue != [] }

  ghost predicate TidyRun(n: nat, es: seq<Event>) { forall k :: 0 <= k < |es| ==> !Untidy(Run(n, es[..k]).ps, es[k]) }

  lemma RunNext(n: nat, es: seq<Event>, k: nat)
    requires k < |es|
    ensures Run(n, es[..k + 1]) == Step(Run(n, es[..k]), es[k])
  {
    assert es[..k + 1][..k] == es[..k];
  }

  lemma {:induction false} TidySoFar(n: nat, es: seq<Event>, k: nat)
    requires TidyRun(n, es) && k <= |es|
    ensures Run(n, es[..k]).stale == {}
  {
    hide Run; hide Inv; hide Step;
    if k == 0 {
      RunStart(n);
      assert es[..0] == [];
    } else {
      TidySoFar(n, es, k - 1);
      RunNext(n, es, k - 1);
      StaleAfter(Run(n, es[..k - 1]), es[k - 1]);
    }
  }

  /** One step leaves a bit behind exactly when a station leaves untidily. */
  lemma StaleAfter(s: State, e: Event)
    requires Inv(s) && s.stale == {}
    ensures Step(s, e).stale == {} <==> !Untidy(s.ps, e)
  {
    hide Inv;
    if Untidy(s.ps, e) {
      assert s.ps.stas[e.id].aid in Step(s, e).stale;
    }
  }

  /** Every bit is set exactly when frames wait for the station with its id. */
  ghost predicate BitsRight(ps: Ps) { forall k :: 0 <= k < |ps.bits| ==> (ps.bits[k] <==> Waiting(ps, k)) }

  lemma NoneLeft(s: State)
    requires Inv(s)
    ensures BitsRight(s.ps) <==> s.stale == {}
  {
    if s.stale != {} {
      var k :| k in s.stale;
      assert s.ps.bits[k] && !Waiting(s.ps, k);
    }
  }

  /** Through a whole run bits and queues agree if and only if no station leaves while frames wait for it. */
  lemma LeftBehindExactly(n: nat, es: seq<Event>)
    ensures (forall k :: 0 <= k <= |es| ==> BitsRight(Run(n, es[..k]).ps)) <==> TidyRun(n, es)
  {
    hide Run; hide Inv; hide Step; hide BitsRight;
    if TidyRun(n, es) {
      forall k | 0 <= k <= |es| ensures BitsRight(Run(n, es[..k]).ps) {
        TidySoFar(n, es, k);
        NoneLeft(Run(n, es[..k]));
      }
    } else {
      var k :| 0 <= k < |es| && Untidy(Run(n, es[..k]).ps, es[k]);
      RunNext(n, es, k);
      NoneLeft(Run(n, es[..k]));
      NoneLeft(Run(n, es[..k + 1]));
      if Run(n, es[..k]).stale == {} {
        StaleAfter(Run(n, es[..k]), es[k]);
      }
    }
  }

  lemma InvOfRun(n: nat, es: seq<Event>)
    ensures var ps := Run(n, es).ps; ps.pending == Ones(ps.bits) && Distinct(ps) && |ps.bits| == n
  {
  }

  /** A frame is saved for station 1 with id 5, the station leaves, and id 5 is given to station 2: its bit is set. */
  lemma StaleBit()
    ensures var s := Run(16, [DoJoin(1, 5), DoSave(1, 7, 20), DoLeave(1), DoJoin(2, 5)]);
            2 in s.ps.stas && s.ps.stas[2] == Sta(5, []) && s.ps.bits[5]
  {
    hide Run; hide Inv; hide Ones; hide Owned;
    var es := [DoJoin(1, 5), DoSave(1, 7, 20), DoLeave(1), DoJoin(2, 5)];
    assert es[..0] == [] && es[..4] == es;
    RunStart(16);
    RunNext(16, es, 0); RunNext(16, es, 1); RunNext(16, es, 2); RunNext(16, es, 3);
    NotOwned(Fresh(16), 5);
    var left, none: seq<Frame> := Run(16, es[..3]), [];
    assert none + [Frame(7, 20)] == [Frame(7, 20)];
    assert Run(16, es[..1]).ps.stas == map[1 := Sta(5, [])] && !Run(16, es[..1]).ps.bits[0];
    assert Run(16, es[..2]).ps.stas == map[1 := Sta(5, [Frame(7, 20)])] && Run(16, es[..2]).ps.bits[5];
    assert !Run(16, es[..2]).ps.bits[0];
    assert left.ps.stas == map[] && left.ps.bits[5];
    NotOwned(left.ps, 5);
  }

  // ---------------------------------------------------------------------------
  // Which frames go out, and when

  /** What becomes of a saved frame: it is sent, with the more-data bit or without, or it expires, or it is freed with
      its station. */
  datatype Fate = Sent(m: nat, more: bool) | Expired(m: nat) | Freed(m: nat)

  function Names(q: seq<Frame>): (ms: seq<nat>)
    ensures |ms| == |q|
  {
    seq(|q|, k requires 0 <= k < |q| => q[k].m)
  }

  function Whose(fs: seq<Fate>): (ms: seq<nat>)
    ensures |ms| == |fs|
  {
    seq(|fs|, k requires 0 <= k < |fs| => fs[k].m)
  }

  function Waits(ps: Ps, id: Id): seq<nat> { if id in ps.stas then Names(ps.stas[id].queue) else [] }

  /** The frame that an event adds to the queue. */
  function Comes(ps: Ps, e: Event): seq<nat> {
    if e.DoSave? && e.id in ps.stas && |ps.stas[e.id].queue| < 50 then [e.m] else []
  }

  /** The frames that an event takes out of the queue, in order. */
  function Goes(ps: Ps, e: Event): (fs: seq<Fate>) {
    if e.id !in ps.stas then []
    else
      var q := ps.stas[e.id].queue;
      match e
      case DoPoll(_) => if q == [] then [] else [Sent(q[0].m, |q| > 1)]
      case DoWake(_) => seq(|q|, k requires 0 <= k < |q| => Sent(q[k].m, k + 1 < |q|))
      case DoAge(_) => seq(|q| - |Young(q)|, k requires 0 <= k < |q| - |Young(q)| => Expired(q[k].m))
      case DoLeave(_) => seq(|q|, k requires 0 <= k < |q| => Freed(q[k].m))
      case _ => []
  }

  lemma {:induction false} YoungNames(q: seq<Frame>)
    ensures Names(Young(q)) == Names(q)[|q| - |Young(q)|..]
  {
    if q != [] && q[0].age < INACT_WAIT {
      YoungNames(q[1..]);
      assert Names(q)[1..] == Names(q[1..]);
    }
  }

  lemma StasAfter(s: State, e: Event)
    requires Inv(s) && Possible(s.ps, e)
    ensures forall b :: b != e.id ==> Waits(Step(s, e).ps, b) == Waits(s.ps, b)
    ensures var q := if e.id in s.ps.stas then s.ps.stas[e.id].queue else [];
            Waits(Step(s, e).ps, e.id) ==
            match e
            case DoSave(_, m, age) => if |q| >= 50 then Names(q) else Names(q + [Tagged(q, m, age)])
            case DoPoll(_) => Names(if q == [] then q else q[1..])
            case DoAge(_) => Names(Young(q))
            case _ => []
  {
    hide Inv; hide Owned; hide Young; hide Names; hide Tagged;
    NoNames();
  }

  lemma NoNames()
    ensures Names([]) == []
  {
  }

  /** Frames come in at the end and go out at the front. */
  lemma StepInOrder(s: State, e: Event)
    requires Inv(s)
    ensures Waits(s.ps, e.id) + Comes(s.ps, e) == Whose(Goes(s.ps, e)) + Waits(Step(s, e).ps, e.id)
    ensures forall b :: b != e.id ==> Waits(Step(s, e).ps, b) == Waits(s.ps, b)
  {
    hide Inv; hide Young; hide Step; hide Owned;
    if Possible(s.ps, e) {
      StasAfter(s, e);
      if e.DoAge? {
        YoungNames(s.ps.stas[e.id].queue);
      }
    } else {
      Impossible(s, e);
    }
  }

  /** The frames accepted for station id through a run, and those that went out, in order. */
  ghost function Saved(n: nat, es: seq<Event>, id: Id): seq<nat>
    decreases |es|
  {
    if es == [] then []
    else
      var k := |es| - 1;
      Saved(n, es[..k], id) + (if es[k].id == id then Comes(Run(n, es[..k]).ps, es[k]) else [])
  }

  ghost function Gone(n: nat, es: seq<Event>, id: Id): seq<Fate>
    decreases |es|
  {
    if es == [] then []
    else
      var k := |es| - 1;
      Gone(n, es[..k], id) + (if es[k].id == id then Goes(Run(n, es[..k]).ps, es[k]) else [])
  }

  lemma WhoseConcat(a: seq<Fate>, b: seq<Fate>)
    ensures Whose(a + b) == Whose(a) + Whose(b)
  {
  }

  /** Over any run, the frames saved for a station, in order, are those that went out followed by those that wait: first
      in, first out. */
  lemma {:induction false} InOrder(n: nat, es: seq<Event>, id: Id)
    ensures Saved(n, es, id) == Whose(Gone(n, es, id)) + Waits(Run(n, es).ps, id)
    decreases |es|
  {
    hide Step; hide Inv; hide Possible; hide Comes; hide Goes; hide Waits; hide Whose;
    if es == [] {
      RunStart(n);
      NoneWait(n, id);
    } else {
      var k := |es| - 1;
      var s, e := Run(n, es[..k]), es[k];
      InOrder(n, es[..k], id);
      StepInOrder(s, e);
      if e.id == id {
        var g, w := Whose(Gone(n, es[..k], id)), Waits(s.ps, id);
        WhoseConcat(Gone(n, es[..k], id), Goes(s.ps, e));
        assert (g + w) + Comes(s.ps, e) == g + (w + Comes(s.ps, e));
        var goes, rest := Whose(Goes(s.ps, e)), Waits(Run(n, es).ps, id);
        assert g + (goes + rest) == (g + goes) + rest;
      } else {
        assert Saved(n, es, id) == Saved(n, es[..k], id) && Gone(n, es, id) == Gone(n, es[..k], id);
      }
    }
  }

  lemma NoneWait(n: nat, id: Id)
    ensures Waits(Fresh(n), id) == [] && Whose([]) == []
  {
  }

  lemma Impossible(s: State, e: Event)
    requires Inv(s) && !Possible(s.ps, e)
    ensures Step(s, e) == s
  {
  }

  /** No queue is ever longer than 50. */
  lemma {:induction false} QueueBound(n: nat, es: seq<Event>, id: Id)
    ensures |Waits(Run(n, es).ps, id)| <= 50
    decreases |es|
  {
    hide Inv; hide Owned;
    if es != [] {
      var k := |es| - 1;
      QueueBound(n, es[..k], id);
      QueueBound(n, es[..k], es[k].id);
    }
  }

  // ---------------------------------------------------------------------------
  // Ages

  /** When frame k of a queue expires, if ages are differences: after the ages up to its own. */
  function Expires(q: seq<Frame>, k: nat): int
    requires k < |q|
  {
    if k == 0 then q[0].age else Expires(q, k - 1) + q[k].age
  }

  lemma {:induction false} ExpiresPrefix(q: seq<Frame>, f: Frame, k: nat)
    requires k < |q|
    ensures Expires(q + [f], k) == Expires(q, k)
  {
    if k > 0 {
      ExpiresPrefix(q, f, k - 1);
    }
  }

  /** A frame saved with an age expires after that age if and only if at most one frame waits, or those before the last
      expire at once: only the age of the last is taken off. */
  lemma SavedAge(q: seq<Frame>, m: nat, age: int)
    ensures Expires(q + [Tagged(q, m, age)], |q|) == age <==> |q| <= 1 || Expires(q, |q| - 2) == 0
  {
    var n := |q|;
    if n > 0 {
      ExpiresPrefix(q, Tagged(q, m, age), n - 1);
    }
  }

  /** Three frames saved for 20 seconds each: the third one stays 40. */
  lemma ThirdStaysTwice()
    ensures var q1 := [Tagged([], 1, 20)];
            var q2 := q1 + [Tagged(q1, 2, 20)];
            var q3 := q2 + [Tagged(q2, 3, 20)];
            Expires(q3, 0) == 20 && Expires(q3, 1) == 20 && Expires(q3, 2) == 40
  {
  }

  lemma {:induction false} ExpiresTail(q: seq<Frame>, k: nat)
    requires k + 1 < |q|
    ensures Expires(q, k + 1) == q[0].age + Expires(q[1..], k)
  {
    if k > 0 {
      ExpiresTail(q, k - 1);
    }
  }

  /** Ageing takes 15 off every frame that stays, and besides it the ages of the frames that expired. */
  lemma {:induction false} YoungExpires(q: seq<Frame>, k: nat)
    requires k < |Young(q)|
    ensures var d := |q| - |Young(q)|;
            Expires(Young(q), k) == Expires(q, d + k) - 15 - (if d == 0 then 0 else Expires(q, d - 1))
  {
    var d := |q| - |Young(q)|;
    if q[0].age < INACT_WAIT {
      YoungExpires(q[1..], k);
      ExpiresTail(q, d - 1 + k);
      if d > 1 {
        ExpiresTail(q, d - 2);
      }
    } else {
      YoungHead(q, k);
    }
  }

  lemma {:induction false} YoungHead(q: seq<Frame>, k: nat)
    requires k < |q| && q[0].age >= INACT_WAIT
    ensures |Young(q)| == |q| && Expires(Young(q), k) == Expires(q, k) - 15
  {
    if k > 0 {
      YoungHead(q, k - 1);
    }
  }

  lemma RunStart(n: nat)
    ensures Run(n, []) == State(Fresh(n), {})
  {
  }

  lemma NotOwned(ps: Ps, k: nat)
    requires ps.stas == map[]
    ensures !Owned(ps, k)
  {
  }
}
