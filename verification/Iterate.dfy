/** ieee80211_iterate_nodes: generation-stamped iteration over a list that callbacks may shrink. */
module Iterate {
  type Id = nat

  /** What the callback does: on its k-th call, made on node id, it takes these nodes off the list. */
  type Callback = (nat, Id) -> set<Id>

  function Minus(list: seq<Id>, gone: set<Id>): seq<Id> {
    if list == [] then [] else (if list[0] in gone then [] else [list[0]]) + Minus(list[1..], gone)
  }

  lemma {:induction false} MinusHas(list: seq<Id>, gone: set<Id>)
    ensures forall x :: x in Minus(list, gone) <==> x in list && x !in gone
  {
    if list != [] {
      MinusHas(list[1..], gone);
      assert forall x :: x in list <==> x == list[0] || x in list[1..];
    }
  }

  /** x was taken off the list by one of the first k calls. */
  ghost predicate TakenBy(f: Callback, called: seq<Id>, k: nat, x: Id)
    requires k <= |called|
  {
    exists j :: 0 <= j < k && x in f(j, called[j])
  }

  class NodeList {
    var list: seq<Id>
    var stamp: map<Id, nat> // ni_scangen
    var scangen: nat        // nt_scangen

    ghost predicate Valid()
      reads this
    {
      && (forall x :: x in list ==> x in stamp && stamp[x] <= scangen)
    }

    /** The inner loop: the first node without the stamp. */
    method FirstUnstamped(gen: nat) returns (r: int)
      requires forall x :: x in list ==> x in stamp
      ensures -1 <= r < |list|
      ensures if r >= 0 then stamp[list[r]] != gen else forall x :: x in list ==> stamp[x] == gen
    {
      for i := 0 to |list|
        invariant forall j :: 0 <= j < i ==> stamp[list[j]] == gen
      {
        if stamp[list[i]] != gen {
          return i;
        }
      }
      return -1;
    }

    /** ieee80211_iterate_nodes, for a callback that adds no nodes and starts no iteration of its own; the generation
        counter does not wrap. The callback is called exactly once on every node that was on the list at the start
        and was not taken off before its turn. */
    method IterateNodes(f: Callback) returns (called: seq<Id>)
      requires Valid()
      modifies this
      ensures Valid() && scangen == old(scangen) + 1
      ensures forall i, j :: 0 <= i < j < |called| ==> called[i] != called[j]
      ensures forall k :: 0 <= k < |called| ==> called[k] in old(list) && !TakenBy(f, called, k, called[k])
      ensures forall x :: x in old(list) ==> x in called || TakenBy(f, called, |called|, x)
      ensures forall x :: x in list <==> x in old(list) && !TakenBy(f, called, |called|, x)
    {
      hide Minus;
      ghost var list0 := list;
      scangen := scangen + 1;
      var gen := scangen;
      called := [];
      ghost var left := set x | x in list0;
      while true
        invariant scangen == gen == old(scangen) + 1 && Valid() && left <= (set x | x in list0)
        invariant forall i, j :: 0 <= i < j < |called| ==> called[i] != called[j]
        invariant forall k :: 0 <= k < |called| ==> called[k] in list0 && !TakenBy(f, called, k, called[k])
        invariant forall x :: x in list <==> x in list0 && !TakenBy(f, called, |called|, x)
        invariant forall x :: x in list ==> (x in left <==> x !in called) && (stamp[x] == gen <==> x in called)
        decreases left
      {
        if gen != scangen {
          assert false; // scan aborted
        }
        var r := FirstUnstamped(gen);
        if r < 0 {
          return;
        }
        var id, k := list[r], |called|;
        stamp := stamp[id := gen];
        MinusHas(list, f(k, id));
        list := Shrink(list, f(k, id));
        Extended(f, called, id);
        called := called + [id];
        left := left - {id};
      }
    }
  }

  /** What the callback leaves on the list. */
  method Shrink(list: seq<Id>, gone: set<Id>) returns (r: seq<Id>)
    ensures r == Minus(list, gone)
  {
    r := [];
    var i := |list|;
    assert list[|list|..] == [];
    while i > 0
      invariant 0 <= i <= |list| && r == Minus(list[i..], gone)
    {
      i := i - 1;
      assert list[i..][1..] == list[i + 1..];
      if list[i] !in gone {
        r := [list[i]] + r;
      }
    }
    assert list[0..] == list;
  }

  /** One more call takes off what it takes off. */
  lemma Extended(f: Callback, called: seq<Id>, id: Id)
    ensures forall x, k :: 0 <= k <= |called| ==> (TakenBy(f, called + [id], k, x) <==> TakenBy(f, called, k, x))
    ensures forall x ::
              TakenBy(f, called + [id], |called| + 1, x) <==> TakenBy(f, called, |called|, x) || x in f(|called|, id)
  {
    var next := called + [id];
    forall x, k | 0 <= k <= |called| ensures TakenBy(f, next, k, x) <==> TakenBy(f, called, k, x) {
      if TakenBy(f, next, k, x) {
        var j :| 0 <= j < k && x in f(j, next[j]);
        assert x in f(j, called[j]);
      }
      if TakenBy(f, called, k, x) {
        var j :| 0 <= j < k && x in f(j, called[j]);
        assert x in f(j, next[j]);
      }
    }
    forall x ensures TakenBy(f, next, |called| + 1, x) <==> TakenBy(f, called, |called|, x) || x in f(|called|, id) {
      if TakenBy(f, next, |called| + 1, x) {
        var j :| 0 <= j < |called| + 1 && x in f(j, next[j]);
        if j < |called| {
          assert x in f(j, called[j]);
        }
      }
      if TakenBy(f, called, |called|, x) {
        var j :| 0 <= j < |called| && x in f(j, called[j]);
        assert x in f(j, next[j]);
      } else if x in f(|called|, id) {
        assert x in f(|called|, next[|called|]);
      }
    }
  }
}
