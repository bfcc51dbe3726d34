/** The node table operations of ieee80211_node.c, on the table's own lists and counts. */
module NodeCode {
  import opened NodeTab
  import opened Options

  /** LIST_REMOVE and TAILQ_REMOVE. */
  method Remove(s: seq<Id>, id: Id) returns (r: seq<Id>)
    ensures r == Without(s, id)
  {
    r := [];
    var i := |s|;
    assert s[|s|..] == [];
    while i > 0
      invariant 0 <= i <= |s| && r == Without(s[i..], id)
    {
      i := i - 1;
      assert s[i..][1..] == s[i + 1..];
      if s[i] != id {
        r := [s[i]] + r;
      }
    }
    assert s[0..] == s;
  }

  lemma ChainNodes(t: Table, h: nat)
    requires Inv(t) && h < HASHSIZE
    ensures |t.chains| == HASHSIZE && t.held.Keys == t.nodes.Keys && forall id :: id in t.chains[h] ==> id in t.nodes
  {
  }

  lemma LookupIs(t: Table, mac: Mac)
    requires |t.chains| == HASHSIZE
    ensures Lookup(t, mac) == FindIn(t, t.chains[Hash(mac)], mac)
  {
  }

  /** The count of a freed node does not matter. */
  lemma FreedSame(t: Table, id: Id, refs: nat)
    requires id in t.nodes && |t.chains| == HASHSIZE
    ensures Freed(t.(nodes := t.nodes[id := t.nodes[id].(refs := refs)]), id) == Freed(t, id)
  {
    hide Hash; hide Without;
  }

  class NodeTable {
    var list: seq<Id>             // nt_node
    var chains: seq<seq<Id>>      // nt_hash
    var keymap: seq<Option<Id>>   // nt_keyixmap
    var nodes: map<Id, Node>
    ghost var held: map<Id, nat>  // references handed out

    ghost function View(): Table
      reads this
    {
      Table(list, chains, keymap, nodes, held)
    }

    constructor (keyixmax: nat)
      ensures View() == Empty(keyixmax)
    {
      list, chains := [], seq(HASHSIZE, _ => []);
      keymap, nodes, held := seq(keyixmax, _ => None), map[], map[];
    }

    /** ieee80211_node_dectestref: at zero the count goes back to one, and the caller reclaims. */
    method DecTestRef(id: Id) returns (last: bool)
      requires id in nodes && nodes[id].refs > 0
      modifies this`nodes
      ensures last <==> old(nodes[id].refs) == 1
      ensures nodes == old(nodes)[id := old(nodes[id]).(refs := if last then 1 else old(nodes[id].refs) - 1)]
    {
      nodes := nodes[id := nodes[id].(refs := nodes[id].refs - 1)];
      last := nodes[id].refs == 0;
      if last {
        nodes := nodes[id := nodes[id].(refs := nodes[id].refs + 1)];
      }
    }

    /** ieee80211_setup_node. */
    method DoSetup(id: Id, mac: Mac)
      requires Inv(View()) && id !in nodes
      modifies this
      ensures View() == Setup(old(View()), id, mac) && Inv(View())
    {
      SetupInv(View(), id, mac);
      var h := Hash(mac);
      nodes := nodes[id := Node(mac, 1, None, true)];
      list := list + [id];
      chains := chains[h := [id] + chains[h]];
      held := held[id := 0];
    }

    /** _ieee80211_find_node: walk the chain. */
    method Find(mac: Mac) returns (r: Option<Id>)
      requires Inv(View())
      modifies this`nodes, this`held
      ensures |old(View()).chains| == HASHSIZE && r == Lookup(old(View()), mac) && Inv(View())
      ensures r.Some? ==> r.value in old(nodes) && r.value in old(held)
      ensures View() == if r.Some? then Hand(old(View()), r.value) else old(View())
    {
      ghost var t := View();
      LookupExact(t, mac);
      ChainNodes(t, Hash(mac));
      hide Inv; hide Hash; hide Lookup;
      LookupIs(t, mac);
      var chain := chains[Hash(mac)];
      var i := 0;
      assert chain[0..] == chain;
      while i < |chain|
        invariant 0 <= i <= |chain| && View() == t && Lookup(t, mac) == FindIn(t, chain[i..], mac)
      {
        assert chain[i] in chain && chain[i..][1..] == chain[i + 1..];
        if nodes[chain[i]].mac == mac {
          DoRef(chain[i]);
          return Some(chain[i]);
        }
        i := i + 1;
      }
      assert chain[|chain|..] == [];
      return None;
    }

    /** ieee80211_ref_node. */
    method DoRef(id: Id)
      requires Inv(View()) && id in nodes
      modifies this`nodes, this`held
      ensures View() == Hand(old(View()), id) && Inv(View())
    {
      HandInv(View(), id);
      nodes := nodes[id := nodes[id].(refs := nodes[id].refs + 1)];
      held := held[id := held[id] + 1];
    }

    /** The key map takes a node at its index, if that is free. */
    method EnterKey(id: Id)
      requires id in nodes
      modifies this`nodes, this`keymap
      ensures View() == Enter(old(View()), id)
    {
      var k := nodes[id].key;
      if k.Some? && k.value < |keymap| && keymap[k.value].None? {
        nodes := nodes[id := nodes[id].(refs := nodes[id].refs + 1)];
        keymap := keymap[k.value := Some(id)];
      }
    }

    /** ieee80211_find_rxnode_withkey. */
    method FindWithKey(mac: Mac, hint: nat, bss: Id) returns (id: Id)
      requires Inv(View()) && bss in nodes
      modifies this`nodes, this`held, this`keymap
      ensures |old(View()).chains| == HASHSIZE && id == Found(old(View()), mac, hint, bss)
      ensures id in old(nodes) && id in old(held) && View() == FindKey(old(View()), mac, hint, bss) && Inv(View())
    {
      ghost var t := View();
      FindKeyInv(t, mac, hint, bss);
      FoundIsNode(t, mac, hint, bss);
      hide Inv; hide Lookup; hide AddRefs; hide Enter;
      if hint < |keymap| && keymap[hint].Some? {
        id := keymap[hint].value;
        DoRef(id);
      } else {
        var r := Find(mac);
        if r.None? {
          id := bss;
          DoRef(id);
        } else {
          id := r.value;
        }
        HandHas(t, id);
        EnterKey(id);
      }
    }

    /** _ieee80211_free_node. */
    method FreeNode(id: Id)
      requires id in nodes && |chains| == HASHSIZE
      modifies this
      ensures View() == Freed(old(View()), id)
    {
      if nodes[id].inTable {
        list := Remove(list, id);
        var h := Hash(nodes[id].mac);
        var c := Remove(chains[h], id);
        chains := chains[h := c];
      }
      nodes := nodes - {id};
      held := held - {id};
    }

    /** Out of the list and the chain. */
    method Unlink(id: Id)
      requires id in nodes && |chains| == HASHSIZE
      modifies this`list, this`chains, this`nodes
      ensures View() == Unlinked(old(View()), id)
    {
      hide Hash; hide Without;
      list := Remove(list, id);
      var h := Hash(nodes[id].mac);
      var c := Remove(chains[h], id);
      chains := chains[h := c];
      nodes := nodes[id := nodes[id].(inTable := false)];
    }

    /** The key map gives up a node. */
    method ClearKey(id: Id)
      requires id in nodes && nodes[id].refs > 0
      modifies this`nodes, this`keymap
      ensures View() == DropKey(old(View()), id)
    {
      var k := nodes[id].key;
      if k.Some? && k.value < |keymap| && keymap[k.value] == Some(id) {
        keymap := keymap[k.value := None];
        nodes := nodes[id := nodes[id].(refs := nodes[id].refs - 1)];
      }
    }

    /** ieee80211_free_node. */
    method DoRelease(id: Id)
      requires Inv(View()) && id in nodes && held[id] > 0
      modifies this
      ensures |old(View()).chains| == HASHSIZE && old(nodes[id].refs) > 0
      ensures View() == Release(old(View()), id) && Inv(View())
    {
      hide Inv; hide Freed; hide KeyHeld; hide Release; hide Claims;
      ghost var t := View();
      ReleaseFacts(t, id);
      ReleaseInv(t, id);
      ReleaseIs(t, id);
      held := held[id := held[id] - 1];
      var last := DecTestRef(id);
      ghost var u := Table(list, chains, keymap, t.nodes[id := t.nodes[id].(refs := t.nodes[id].refs - 1)], held);
      if nodes[id].inTable {
        if last {
          assert false; // the table still holds the node
        } else if nodes[id].refs == 1 && nodes[id].key.Some? && nodes[id].key.value < |keymap|
               && keymap[nodes[id].key.value] == Some(id) {
          KeyHeldIs(t, id);
          assert false; // the table and the key map both hold the node
        }
      } else if last {
        FreedSame(u, id, 1);
        assert View() == u.(nodes := u.nodes[id := u.nodes[id].(refs := 1)]);
        FreeNode(id);
      }
    }

    /** ieee80211_node_delucastkey; the key itself is not modelled beyond its index. */
    method DoDelKey(id: Id)
      requires Inv(View()) && id in nodes
      modifies this
      ensures |old(View()).chains| == HASHSIZE && old(nodes[id].refs) > 0
      ensures View() == DelKey(old(View()), id) && Inv(View())
    {
      hide Inv; hide Freed; hide DelKey;
      ghost var t := View();
      DelKeyInv(t, id);
      DelKeyIs(t, id);
      var k := nodes[id].key;
      var nikey := None;
      if k.Some? && k.value < |keymap| {
        nikey := keymap[k.value];
        keymap := keymap[k.value := None];
      }
      nodes := nodes[id := nodes[id].(key := None)];
      if nikey.Some? {
        assert nikey.value == id; // IASSERT(nikey == ni)
        ghost var u := View().(nodes := nodes[id := nodes[id].(refs := nodes[id].refs - 1)]);
        UpdateTwice(t.nodes, id, nodes[id], u.nodes[id]);
        var last := DecTestRef(id);
        assert !last ==> View() == u;
        if last {
          FreedSame(u, id, 1);
          assert View() == u.(nodes := u.nodes[id := u.nodes[id].(refs := 1)]);
          FreeNode(id);
        }
      }
    }

    /** node_reclaim. */
    method DoReclaim(id: Id)
      requires Inv(View()) && id in list
      modifies this
      ensures |old(View()).chains| == HASHSIZE && id in old(nodes)
      ensures old(nodes)[id].refs > (if KeyHeld(old(View()), id) then 1 else 0)
      ensures View() == Reclaim(old(View()), id) && Inv(View())
    {
      hide Inv; hide Freed; hide Unlinked; hide DropKey; hide KeyHeld; hide Reclaim;
      ghost var t := View();
      InList(t, id);
      ReclaimInv(t, id);
      DropKeyRefs(t, id);
      ReclaimIs(t, id);
      ClearKey(id);
      ghost var d := View();
      ghost var u := d.(nodes := d.nodes[id := d.nodes[id].(refs := d.nodes[id].refs - 1)]);
      var last := DecTestRef(id);
      if !last {
        assert View() == u;
        Unlink(id);
      } else {
        FreedSame(u, id, 1);
        assert View() == u.(nodes := u.nodes[id := u.nodes[id].(refs := 1)]);
        FreeNode(id);
      }
    }
  }

  lemma ReleaseIs(t: Table, id: Id)
    requires id in t.nodes && id in t.held && t.held[id] > 0 && t.nodes[id].refs > 0 && |t.chains| == HASHSIZE
    ensures var u := t.(nodes := t.nodes[id := t.nodes[id].(refs := t.nodes[id].refs - 1)],
                        held := t.held[id := t.held[id] - 1]);
            Release(t, id) == if t.nodes[id].refs == 1 then Freed(u, id) else u
  {
    hide Freed;
  }

  lemma DelKeyIs(t: Table, id: Id)
    requires Inv(t) && id in t.nodes
    ensures |t.chains| == HASHSIZE && t.nodes[id].refs > 0
    ensures var n, k := t.nodes[id], t.nodes[id].key;
            var slot := k.Some? && k.value < |t.keymap|;
            var m := if slot then t.keymap[k.value := None] else t.keymap;
            DelKey(t, id) ==
            if slot && t.keymap[k.value] == Some(id) then
              var u := t.(keymap := m, nodes := t.nodes[id := n.(key := None, refs := n.refs - 1)]);
              if n.refs == 1 then Freed(u, id) else u
            else t.(keymap := m, nodes := t.nodes[id := n.(key := None)])
  {
    hide Freed; hide Hash;
    var n, k := t.nodes[id], t.nodes[id].key;
    UpdateTwice(t.nodes, id, n.(refs := n.refs - 1), n.(key := None, refs := n.refs - 1));
    if k.Some? && k.value < |t.keymap| && t.keymap[k.value] != Some(id) {
      assert t.keymap[k.value] == None && t.keymap[k.value := None] == t.keymap;
    }
  }

  lemma UpdateTwice(nodes: map<Id, Node>, id: Id, a: Node, b: Node)
    ensures nodes[id := a][id := b] == nodes[id := b]
  {
  }

  lemma ReclaimIs(t: Table, id: Id)
    requires id in t.nodes && t.nodes[id].refs > (if KeyHeld(t, id) then 1 else 0) && |t.chains| == HASHSIZE
    ensures var d := DropKey(t, id);
            var u := d.(nodes := d.nodes[id := d.nodes[id].(refs := d.nodes[id].refs - 1)]);
            Reclaim(t, id) == if d.nodes[id].refs == 1 then Freed(u, id) else Unlinked(u, id)
  {
    hide Freed; hide Unlinked;
  }

  lemma KeyHeldIs(t: Table, id: Id)
    requires id in t.nodes && t.nodes[id].key.Some? && t.nodes[id].key.value < |t.keymap|
    requires t.keymap[t.nodes[id].key.value] == Some(id)
    ensures KeyHeld(t, id)
  {
  }

  lemma HandHas(t: Table, id: Id)
    requires id in t.nodes && id in t.held
    ensures id in Hand(t, id).nodes
  {
  }

  /** A held node in the table has a second claim; one that the key map holds has a third. */
  lemma ReleaseFacts(t: Table, id: Id)
    requires Inv(t) && id in t.nodes && t.held[id] > 0
    ensures |t.chains| == HASHSIZE && t.nodes[id].refs > 0 && t.held.Keys == t.nodes.Keys
    ensures t.nodes[id].inTable ==> t.nodes[id].refs > (if KeyHeld(t, id) then 2 else 1)
  {
  }
}
