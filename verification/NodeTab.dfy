/** The node table: list, hash chains, key map and reference counts, as ieee80211_node.c keeps them. */
module NodeTab {
  import opened Blocks
  import opened Options

  /** A node is known by the address of its structure. */
  type Id = nat

  type Mac = m: seq<byte> | |m| == 6 witness [0, 0, 0, 0, 0, 0]

  const HASHSIZE: nat := 32

  /** IEEE80211_NODE_HASH. */
  function Hash(mac: Mac): (h: nat)
    ensures h < HASHSIZE
  {
    Value(mac[5]) % HASHSIZE
  }

  /** A node: address, reference count, hardware key index if it has one, and whether it is in the table. */
  datatype Node = Node(mac: Mac, refs: nat, key: Option<nat>, inTable: bool)

  /** The table and the nodes that exist; `held` counts the references handed out and not yet released. */
  datatype Table = Table(list: seq<Id>, chains: seq<seq<Id>>, keymap: seq<Option<Id>>,
                         nodes: map<Id, Node>, held: map<Id, nat>)

  predicate KeyHeld(t: Table, id: Id)
    requires id in t.nodes
  {
    var n := t.nodes[id];
    n.key.Some? && n.key.value < |t.keymap| && t.keymap[n.key.value] == Some(id)
  }

  /** What keeps a node alive: the table, the key map, and whoever was handed a reference. */
  function Claims(t: Table, id: Id): nat
    requires id in t.nodes && id in t.held
  {
    (if t.nodes[id].inTable then 1 else 0) + (if KeyHeld(t, id) then 1 else 0) + t.held[id]
  }

  ghost predicate Distinct(s: seq<Id>) { forall i, j :: 0 <= i < j < |s| ==> s[i] != s[j] }

  /** List and hash chains hold the same nodes, each once, each chain those of its hash. */
  ghost predicate Indexed(t: Table) {
    && |t.chains| == HASHSIZE && Distinct(t.list)
    && (forall id :: id in t.list <==> id in t.nodes && t.nodes[id].inTable)
    && (forall h :: 0 <= h < HASHSIZE ==> Distinct(t.chains[h]))
    && (forall h, id :: 0 <= h < HASHSIZE ==>
          (id in t.chains[h] <==> id in t.nodes && t.nodes[id].inTable && Hash(t.nodes[id].mac) == h))
  }

  /** The key map points to nodes at their key index, and no two nodes have the same one. */
  ghost predicate Keyed(t: Table) {
    && (forall k :: 0 <= k < |t.keymap| && t.keymap[k].Some? ==>
          var id := t.keymap[k].value; id in t.nodes && t.nodes[id].key == Some(k))
    && (forall a, b :: a in t.nodes && b in t.nodes && t.nodes[a].key.Some? && t.nodes[a].key == t.nodes[b].key ==>
          a == b)
  }

  /** Every count is what the claims add up to, and no node without a claim exists. */
  ghost predicate Counted(t: Table) {
    && t.held.Keys == t.nodes.Keys
    && (forall id :: id in t.nodes ==> t.nodes[id].refs == Claims(t, id) && t.nodes[id].refs > 0)
  }

  ghost predicate Inv(t: Table) { Indexed(t) && Keyed(t) && Counted(t) }

  // ---------------------------------------------------------------------------
  // Operations

  function Without(s: seq<Id>, id: Id): seq<Id> {
    if s == [] then [] else (if s[0] == id then [] else [s[0]]) + Without(s[1..], id)
  }

  function AddRefs(t: Table, id: Id, d: int): Table
    requires id in t.nodes && t.nodes[id].refs + d >= 0
  {
    t.(nodes := t.nodes[id := t.nodes[id].(refs := t.nodes[id].refs + d)])
  }

  /** A reference for a caller. */
  function Hand(t: Table, id: Id): Table
    requires id in t.nodes && id in t.held
  {
    AddRefs(t, id, 1).(held := t.held[id := t.held[id] + 1])
  }

  /** ieee80211_setup_node: the reference it starts with is the table's. */
  function Setup(t: Table, id: Id, mac: Mac): Table
    requires |t.chains| == HASHSIZE
  {
    var h := Hash(mac);
    Table(t.list + [id], t.chains[h := [id] + t.chains[h]], t.keymap,
          t.nodes[id := Node(mac, 1, None, true)], t.held[id := 0])
  }

  /** ieee80211_tmp_node: outside the table, held by the caller. */
  function Tmp(t: Table, id: Id, mac: Mac): Table {
    t.(nodes := t.nodes[id := Node(mac, 1, None, false)], held := t.held[id := 1])
  }

  /** The first node of a chain with the address. */
  function FindIn(t: Table, chain: seq<Id>, mac: Mac): Option<Id> {
    if chain == [] then None
    else if chain[0] in t.nodes && t.nodes[chain[0]].mac == mac then Some(chain[0])
    else FindIn(t, chain[1..], mac)
  }

  function Lookup(t: Table, mac: Mac): Option<Id>
    requires |t.chains| == HASHSIZE
  {
    FindIn(t, t.chains[Hash(mac)], mac)
  }

  /** Out of list and chains, still a node. */
  function Unlinked(t: Table, id: Id): Table
    requires id in t.nodes && |t.chains| == HASHSIZE
  {
    var h := Hash(t.nodes[id].mac);
    t.(list := Without(t.list, id), chains := t.chains[h := Without(t.chains[h], id)],
       nodes := t.nodes[id := t.nodes[id].(inTable := false)])
  }

  /** _ieee80211_free_node: no longer a node. */
  function Freed(t: Table, id: Id): Table
    requires id in t.nodes && |t.chains| == HASHSIZE
  {
    var u := if t.nodes[id].inTable then Unlinked(t, id) else t;
    u.(nodes := u.nodes - {id}, held := u.held - {id})
  }

  /** ieee80211_free_node for a reference the caller holds. */
  function Release(t: Table, id: Id): Table
    requires id in t.nodes && id in t.held && t.held[id] > 0 && t.nodes[id].refs > 0 && |t.chains| == HASHSIZE
  {
    var u := AddRefs(t, id, -1).(held := t.held[id := t.held[id] - 1]);
    if u.nodes[id].refs == 0 then Freed(u, id) else u
  }

  /** The key map gives up a node. */
  function DropKey(t: Table, id: Id): Table
    requires id in t.nodes && t.nodes[id].refs > 0
  {
    if KeyHeld(t, id) then AddRefs(t, id, -1).(keymap := t.keymap[t.nodes[id].key.value := None]) else t
  }

  /** node_reclaim. */
  function Reclaim(t: Table, id: Id): Table
    requires id in t.nodes && t.nodes[id].refs > (if KeyHeld(t, id) then 1 else 0) && |t.chains| == HASHSIZE
  {
    var u := AddRefs(DropKey(t, id), id, -1);
    if u.nodes[id].refs == 0 then Freed(u, id) else Unlinked(u, id)
  }

  /** Enter a node into the key map at its index, if that is free, with a reference for the map. */
  function Enter(t: Table, id: Id): Table
    requires id in t.nodes
  {
    var k := t.nodes[id].key;
    if k.Some? && k.value < |t.keymap| && t.keymap[k.value].None?
    then AddRefs(t, id, 1).(keymap := t.keymap[k.value := Some(id)])
    else t
  }

  predicate Hit(t: Table, hint: nat) { hint < |t.keymap| && t.keymap[hint].Some? }

  /** The node ieee80211_find_rxnode_withkey returns; its last resort is the node of the bss. */
  function Found(t: Table, mac: Mac, hint: nat, bss: Id): Id
    requires |t.chains| == HASHSIZE
  {
    if Hit(t, hint) then t.keymap[hint].value
    else match Lookup(t, mac) case None => bss case Some(id) => id
  }

  /** ieee80211_find_rxnode_withkey. */
  function FindKey(t: Table, mac: Mac, hint: nat, bss: Id): Table
    requires |t.chains| == HASHSIZE && Found(t, mac, hint, bss) in t.nodes && Found(t, mac, hint, bss) in t.held
  {
    var id := Found(t, mac, hint, bss);
    if Hit(t, hint) then Hand(t, id) else Enter(Hand(t, id), id)
  }

  /** The driver assigns a key index. */
  function SetKey(t: Table, id: Id, k: nat): Table
    requires id in t.nodes
  {
    t.(nodes := t.nodes[id := t.nodes[id].(key := Some(k))])
  }

  /** ieee80211_node_delucastkey: the map's claim may have been the last. */
  function DelKey(t: Table, id: Id): Table
    requires id in t.nodes && t.nodes[id].refs > 0 && |t.chains| == HASHSIZE
  {
    var u := NoKey(DropKey(t, id), id);
    if u.nodes[id].refs == 0 then Freed(u, id) else u
  }

  function NoKey(t: Table, id: Id): Table
    requires id in t.nodes
  {
    t.(nodes := t.nodes[id := t.nodes[id].(key := None)])
  }

  // ---------------------------------------------------------------------------
  // Every operation keeps the invariant

  lemma {:induction false} WithoutHas(s: seq<Id>, id: Id)
    ensures forall x :: x in Without(s, id) <==> x in s && x != id
    ensures Distinct(s) ==> Distinct(Without(s, id))
  {
    if s != [] {
      WithoutHas(s[1..], id);
      var rest := Without(s[1..], id);
      assert forall x :: x in s <==> x == s[0] || x in s[1..];
      if Distinct(s) {
        assert s[0] !in s[1..];
        assert forall k :: 0 <= k < |rest| ==> rest[k] in rest;
      }
    }
  }

  lemma SetupInv(t: Table, id: Id, mac: Mac)
    requires Inv(t) && id !in t.nodes
    ensures Inv(Setup(t, id, mac))
  {
    hide Hash;
    var u := Setup(t, id, mac);
    assert id !in t.list;
    forall h | 0 <= h < HASHSIZE ensures Distinct(u.chains[h]) { assert id !in t.chains[h]; }
  }

  lemma TmpInv(t: Table, id: Id, mac: Mac)
    requires Inv(t) && id !in t.nodes
    ensures Inv(Tmp(t, id, mac))
  {
    hide Hash;
  }

  lemma HandInv(t: Table, id: Id)
    requires Inv(t) && id in t.nodes
    ensures Inv(Hand(t, id))
  {
    hide Hash;
  }

  lemma UnlinkedIndexed(t: Table, id: Id)
    requires Indexed(t) && id in t.nodes && t.nodes[id].inTable
    ensures Indexed(Unlinked(t, id))
  {
    hide Hash; hide Without;
    WithoutHas(t.list, id);
    WithoutHas(t.chains[Hash(t.nodes[id].mac)], id);
  }

  lemma DropKeyInv(t: Table, id: Id)
    requires Inv(t) && id in t.nodes && (KeyHeld(t, id) ==> Claims(t, id) > 1)
    ensures Inv(DropKey(t, id)) && id in DropKey(t, id).nodes && !KeyHeld(DropKey(t, id), id)
  {
    hide Indexed; hide Keyed; hide KeyHeld; hide DropKey;
    DropKeySlots(t, id);
    DropKeyIndexed(t, id);
  }

  lemma SetKeyInv(t: Table, id: Id, k: nat)
    requires Inv(t) && id in t.nodes && !KeyHeld(t, id)
    requires forall b :: b in t.nodes ==> t.nodes[b].key != Some(k)
    ensures Inv(SetKey(t, id, k))
  {
    hide Indexed; hide Keyed; hide Counted;
    SameIndexed(t, SetKey(t, id, k));
    SetKeyKeyed(t, id, k);
    SetKeyCounted(t, id, k);
  }

  lemma SetKeyKeyed(t: Table, id: Id, k: nat)
    requires Keyed(t) && id in t.nodes && !KeyHeld(t, id)
    requires forall b :: b in t.nodes ==> t.nodes[b].key != Some(k)
    ensures Keyed(SetKey(t, id, k))
  {
  }

  lemma SetKeyCounted(t: Table, id: Id, k: nat)
    requires Keyed(t) && Counted(t) && id in t.nodes && !KeyHeld(t, id)
    requires forall b :: b in t.nodes ==> t.nodes[b].key != Some(k)
    ensures Counted(SetKey(t, id, k))
  {
  }

  /** Dropping the key of a node empties its slot, which no other node can have, gives up exactly the claim it stood
      for, and frees the node exactly when that was the last. No other slot changes. */
  lemma DelKeyInv(t: Table, id: Id)
    requires Inv(t) && id in t.nodes
    ensures |t.chains| == HASHSIZE
    ensures forall k :: 0 <= k < |t.keymap| && t.nodes[id].key == Some(k) ==> t.keymap[k] in {None, Some(id)}
    ensures var u := DelKey(t, id);
            && Inv(u) && |u.keymap| == |t.keymap|
            && (forall k :: 0 <= k < |u.keymap| ==>
                  u.keymap[k] == if t.keymap[k] == Some(id) then None else t.keymap[k])
            && (id !in u.nodes <==> KeyHeld(t, id) && Claims(t, id) == 1)
            && (id in u.nodes ==>
                  u.nodes[id] == t.nodes[id].(key := None,
                                              refs := t.nodes[id].refs - (if KeyHeld(t, id) then 1 else 0)))
  {
    hide Indexed; hide Keyed; hide KeyHeld; hide DropKey; hide Hash; hide Without; hide NoKey;
    ChainCount(t);
    DropKeySlots(t, id);
    DropKeyIndexed(t, id);
    var d := DropKey(t, id);
    NoKeyKeeps(d, id);
    var u := NoKey(d, id);
    if u.nodes[id].refs == 0 {
      ForgetInv(u, id);
    }
  }

  /** List and chains depend on addresses and membership only. */
  lemma SameIndexed(t: Table, u: Table)
    requires Indexed(t) && u.list == t.list && u.chains == t.chains && u.nodes.Keys == t.nodes.Keys
    requires forall b :: b in t.nodes ==> u.nodes[b].mac == t.nodes[b].mac && u.nodes[b].inTable == t.nodes[b].inTable
    ensures Indexed(u)
  {
    hide Hash;
  }

  /** List, chains and key map after the slot is emptied, and the claims of the others. */
  lemma DropKeyIndexed(t: Table, id: Id)
    requires Inv(t) && id in t.nodes
    ensures var d := DropKey(t, id);
            && Indexed(d) && Keyed(d) && !KeyHeld(d, id) && d.held == t.held && d.chains == t.chains
            && d.nodes.Keys == t.nodes.Keys
            && d.nodes[id].refs == Claims(d, id)
            && forall b :: b in d.nodes && b != id ==> d.nodes[b].refs == Claims(d, b) && d.nodes[b].refs > 0
  {
    hide Indexed;
    SameIndexed(t, DropKey(t, id));
  }

  lemma NoKeyKeeps(d: Table, id: Id)
    requires Indexed(d) && Keyed(d) && id in d.nodes && !KeyHeld(d, id) && d.held.Keys == d.nodes.Keys
    ensures var u := NoKey(d, id);
            && Indexed(u) && Keyed(u) && !KeyHeld(u, id) && u.held == d.held && u.keymap == d.keymap
            && u.chains == d.chains
            && u.nodes == d.nodes[id := d.nodes[id].(key := None)]
            && forall b :: b in d.nodes ==> Claims(u, b) == Claims(d, b)
  {
    hide Indexed;
    SameIndexed(d, NoKey(d, id));
  }

  lemma DropKeySlots(t: Table, id: Id)
    requires Inv(t) && id in t.nodes
    ensures forall k :: 0 <= k < |t.keymap| && t.nodes[id].key == Some(k) ==> t.keymap[k] in {None, Some(id)}
    ensures var d := DropKey(t, id);
            && d.nodes[id] == t.nodes[id].(refs := t.nodes[id].refs - (if KeyHeld(t, id) then 1 else 0))
            && |d.keymap| == |t.keymap|
            && forall k :: 0 <= k < |d.keymap| ==> d.keymap[k] == if t.keymap[k] == Some(id) then None else t.keymap[k]
  {
    hide Hash;
  }

  /** Counts do not matter to list, chains and key map. */
  lemma OnlyCounts(t: Table, u: Table)
    requires Indexed(t) && Keyed(t) && u.list == t.list && u.chains == t.chains && u.keymap == t.keymap
    requires u.nodes.Keys == t.nodes.Keys
    requires forall b :: b in t.nodes ==> u.nodes[b] == t.nodes[b].(refs := u.nodes[b].refs)
    ensures Indexed(u) && Keyed(u) && forall b :: b in t.nodes ==> (KeyHeld(u, b) <==> KeyHeld(t, b))
  {
    hide Hash;
  }

  /** A node outside the table that nothing claims any more can go. */
  lemma ForgetInv(t: Table, id: Id)
    requires Indexed(t) && Keyed(t) && t.held.Keys == t.nodes.Keys && id in t.nodes
    requires forall b :: b in t.nodes && b != id ==> t.nodes[b].refs == Claims(t, b) && t.nodes[b].refs > 0
    requires !t.nodes[id].inTable && !KeyHeld(t, id)
    ensures Inv(t.(nodes := t.nodes - {id}, held := t.held - {id}))
  {
    hide Hash;
  }

  /** Releasing a held reference frees the node exactly when it was the last claim. */
  lemma ReleaseInv(t: Table, id: Id)
    requires Inv(t) && id in t.nodes && t.held[id] > 0
    ensures Inv(Release(t, id))
    ensures id !in Release(t, id).nodes <==> Claims(t, id) == 1
    ensures forall b :: b != id ==> (b in Release(t, id).nodes <==> b in t.nodes)
  {
    hide Indexed; hide Keyed; hide KeyHeld;
    assert |t.chains| == HASHSIZE by { ChainCount(t); }
    var u := AddRefs(t, id, -1).(held := t.held[id := t.held[id] - 1]);
    OnlyCounts(t, u);
    if u.nodes[id].refs == 0 {
      ForgetInv(u, id);
    }
  }

  lemma InList(t: Table, id: Id)
    requires Inv(t) && id in t.list
    ensures id in t.nodes && t.nodes[id].inTable
  {
  }

  lemma ChainCount(t: Table)
    requires Indexed(t)
    ensures |t.chains| == HASHSIZE
  {
  }

  /** Reclaiming takes a node out of list, chains and key map; it is freed exactly when nobody holds it. */
  lemma ReclaimInv(t: Table, id: Id)
    requires Inv(t) && id in t.nodes && t.nodes[id].inTable
    ensures |t.chains| == HASHSIZE && t.nodes[id].refs > (if KeyHeld(t, id) then 1 else 0)
    ensures var u := Reclaim(t, id);
            && Inv(u) && id !in u.list && (id !in u.nodes <==> t.held[id] == 0)
            && forall k :: 0 <= k < |u.keymap| ==> u.keymap[k] != Some(id)
  {
    hide Indexed; hide Keyed; hide KeyHeld; hide DropKey; hide Without; hide Hash;
    ChainCount(t);
    DropKeyInv(t, id);
    DropKeyRefs(t, id);
    var d := DropKey(t, id);
    ChainCount(d);
    var v := AddRefs(d, id, -1);
    OnlyCounts(d, v);
    UnlinkedIndexed(v, id);
    UnlinkedKeyed(v, id);
    WithoutHas(v.list, id);
    UnlinkedCounted(d, v, id);
    if v.nodes[id].refs == 0 {
      ForgetInv(Unlinked(v, id), id);
    }
  }

  /** With the table's claim gone from count and index alike, the others still add up. */
  lemma UnlinkedCounted(d: Table, v: Table, id: Id)
    requires Counted(d) && id in d.nodes && !KeyHeld(d, id) && d.nodes[id].inTable && |d.chains| == HASHSIZE
             && v == AddRefs(d, id, -1)
    ensures var u := Unlinked(v, id);
            && u.held.Keys == u.nodes.Keys && u.nodes[id].refs == u.held[id] && !KeyHeld(u, id)
            && forall b :: b in u.nodes && b != id ==> u.nodes[b].refs == Claims(u, b) && u.nodes[b].refs > 0
  {
    hide Without; hide Hash;
  }

  lemma DropKeyRefs(t: Table, id: Id)
    requires Inv(t) && id in t.nodes
    ensures var d := DropKey(t, id);
            && id in d.nodes
              && d.nodes[id] == t.nodes[id].(refs := t.nodes[id].refs - (if KeyHeld(t, id) then 1 else 0))
            && d.held == t.held && d.chains == t.chains && |d.chains| == HASHSIZE
  {
  }

  lemma UnlinkedKeyed(t: Table, id: Id)
    requires Keyed(t) && id in t.nodes && !KeyHeld(t, id) && |t.chains| == HASHSIZE
    ensures Keyed(Unlinked(t, id)) && Unlinked(t, id).keymap == t.keymap
    ensures forall k :: 0 <= k < |t.keymap| ==> t.keymap[k] != Some(id)
  {
    hide Hash; hide Without;
  }

  // ---------------------------------------------------------------------------
  // Lookup

  lemma {:induction false} FindInExact(t: Table, chain: seq<Id>, mac: Mac)
    requires forall id :: id in chain ==> id in t.nodes
    ensures var r := FindIn(t, chain, mac);
            && (r.Some? ==> r.value in chain && t.nodes[r.value].mac == mac)
            && (r.None? ==> forall id :: id in chain ==> t.nodes[id].mac != mac)
  {
    if chain != [] {
      assert chain[0] in chain;
      FindInExact(t, chain[1..], mac);
    }
  }

  /** Lookup by address succeeds exactly when the list holds a node with it. */
  lemma LookupExact(t: Table, mac: Mac)
    requires Inv(t)
    ensures var r := Lookup(t, mac);
            && (r.Some? ==> r.value in t.list && t.nodes[r.value].mac == mac)
            && (r.Some? <==> exists id :: id in t.list && t.nodes[id].mac == mac)
  {
    FindInExact(t, t.chains[Hash(mac)], mac);
  }

  lemma FoundIsNode(t: Table, mac: Mac, hint: nat, bss: Id)
    requires Inv(t) && bss in t.nodes
    ensures |t.chains| == HASHSIZE && Found(t, mac, hint, bss) in t.nodes && Found(t, mac, hint, bss) in t.held
    ensures !Hit(t, hint) && Found(t, mac, hint, bss) != bss ==>
              Found(t, mac, hint, bss) in t.list && t.nodes[Found(t, mac, hint, bss)].mac == mac
  {
    LookupExact(t, mac);
  }

  lemma EnterInv(t: Table, id: Id)
    requires Inv(t) && id in t.nodes
    ensures Inv(Enter(t, id)) && Enter(t, id).list == t.list && Enter(t, id).held == t.held
    ensures Enter(t, id).nodes.Keys == t.nodes.Keys
  {
    hide Indexed; hide Hash;
    if Enter(t, id) != t {
      var u := AddRefs(t, id, 1);
      hide Enter; hide Keyed; hide Claims; hide KeyHeld;
      OnlyCounts(t, u);
      MapKeeps(t, id);
    }
  }

  /** One slot filled for its node: one claim more for that node. */
  lemma MapKeeps(t: Table, id: Id)
    requires Indexed(t) && Keyed(t) && Counted(t) && id in t.nodes && Enter(t, id) != t
    ensures Indexed(Enter(t, id)) && Keyed(Enter(t, id)) && Counted(Enter(t, id))
    ensures Enter(t, id).list == t.list && Enter(t, id).held == t.held && Enter(t, id).nodes.Keys == t.nodes.Keys
  {
    hide Indexed; hide Keyed; hide Counted;
    SameIndexed(t, Enter(t, id));
    MapKeyed(t, id);
    MapCounted(t, id);
  }

  lemma MapKeyed(t: Table, id: Id)
    requires Keyed(t) && id in t.nodes && Enter(t, id) != t
    ensures Keyed(Enter(t, id))
  {
  }

  lemma MapCounted(t: Table, id: Id)
    requires Keyed(t) && Counted(t) && id in t.nodes && Enter(t, id) != t
    ensures Counted(Enter(t, id))
  {
  }

  /** Lookup with a key hint hands out, once more, the node at the hint, or one of the table with the address, or the
      node of the bss, which need not be in this table. */
  lemma FindKeyInv(t: Table, mac: Mac, hint: nat, bss: Id)
    requires Inv(t) && bss in t.nodes
    ensures |t.chains| == HASHSIZE && Found(t, mac, hint, bss) in t.nodes && Found(t, mac, hint, bss) in t.held
    ensures var id, u := Found(t, mac, hint, bss), FindKey(t, mac, hint, bss);
            && Inv(u) && u.list == t.list && u.held == t.held[id := t.held[id] + 1]
            && (Hit(t, hint) || id == bss || (id in t.list && t.nodes[id].mac == mac))
  {
    hide Found; hide Enter; hide Inv;
    FoundIsNode(t, mac, hint, bss);
    var id := Found(t, mac, hint, bss);
    HandInv(t, id);
    EnterInv(Hand(t, id), id);
  }

  // ---------------------------------------------------------------------------
  // Runs

  datatype Event =
    | DoSetup(id: Id, mac: Mac)
    | DoTmp(id: Id, mac: Mac)
    | DoFind(mac: Mac)
    | DoFindKey(mac: Mac, hint: nat, bss: Id)
    | DoRef(id: Id)
    | DoRelease(id: Id)
    | DoReclaim(id: Id)
    | DoSetKey(id: Id, k: nat)
    | DoDelKey(id: Id)

  /** What callers owe: new nodes are new, only references that are held are released, and a node gets a key index that
      no other node has, after its entry for the last one is gone; ieee80211_node_delucastkey asserts as much. */
  ghost predicate Honest(t: Table, e: Event)
    requires Inv(t)
  {
    match e
    case DoSetup(id, _) => id !in t.nodes
    case DoTmp(id, _) => id !in t.nodes
    case DoFind(_) => true
    case DoFindKey(_, _, bss) => bss in t.nodes
    case DoRef(id) => id in t.nodes
    case DoRelease(id) => id in t.nodes && t.held[id] > 0
    case DoReclaim(id) => id in t.list
    case DoSetKey(id, k) => id in t.nodes && !KeyHeld(t, id) && forall b :: b in t.nodes ==> t.nodes[b].key != Some(k)
    case DoDelKey(id) => id in t.nodes
  }

  /** One event; one that callers do not owe does not happen. */
  ghost function Step(t: Table, e: Event): (u: Table)
    requires Inv(t)
    ensures Inv(u)
  {
    if !Honest(t, e) then t
    else match e
      case DoSetup(id, mac) => SetupInv(t, id, mac); Setup(t, id, mac)
      case DoTmp(id, mac) => TmpInv(t, id, mac); Tmp(t, id, mac)
      case DoFind(mac) =>
        LookupExact(t, mac);
        (match Lookup(t, mac) case None => t case Some(id) => HandInv(t, id); Hand(t, id))
      case DoFindKey(mac, hint, bss) => FindKeyInv(t, mac, hint, bss); FindKey(t, mac, hint, bss)
      case DoRef(id) => HandInv(t, id); Hand(t, id)
      case DoRelease(id) => ReleaseInv(t, id); Release(t, id)
      case DoReclaim(id) => ReclaimInv(t, id); Reclaim(t, id)
      case DoSetKey(id, k) => SetKeyInv(t, id, k); SetKey(t, id, k)
      case DoDelKey(id) => DelKeyInv(t, id); DelKey(t, id)
  }

  /** The table as it is set up: no nodes, no keys. */
  function Empty(keyixmax: nat): Table {
    Table([], seq(HASHSIZE, _ => []), seq(keyixmax, _ => None), map[], map[])
  }

  lemma EmptyInv(keyixmax: nat)
    ensures Inv(Empty(keyixmax))
  {
  }

  /** Any events, from an empty table on. */
  ghost function Run(keyixmax: nat, es: seq<Event>): (t: Table)
    ensures Inv(t)
    decreases |es|
  {
    EmptyInv(keyixmax);
    if es == [] then Empty(keyixmax) else Step(Run(keyixmax, es[..|es| - 1]), es[|es| - 1])
  }

  /** In every run: each node's count is its table membership plus its key map entry plus its holders; a node
      exists exactly as long as one of them is left; the key map never holds the last claim on a node of the table;
      and lookup by address finds exactly what the list holds. */
  lemma InEveryRun(keyixmax: nat, es: seq<Event>, id: Id, mac: Mac)
    ensures var t := Run(keyixmax, es);
            && (id in t.nodes ==> t.nodes[id].refs == Claims(t, id) > 0)
            && (id in t.nodes && t.nodes[id].inTable && KeyHeld(t, id) ==> t.nodes[id].refs >= 2)
            && (Lookup(t, mac).Some? <==> exists b :: b in t.list && t.nodes[b].mac == mac)
  {
    LookupExact(Run(keyixmax, es), mac);
  }

  /** One more event. */
  lemma {:induction false} RunNext(keyixmax: nat, es: seq<Event>, e: Event)
    ensures Run(keyixmax, es + [e]) == Step(Run(keyixmax, es), e)
  {
    assert (es + [e])[..|es|] == es;
  }

  /** No operation but these three ends a node, and no other node than its own. */
  lemma OthersStay(t: Table, e: Event, id: Id)
    requires Inv(t) && id in t.nodes
    requires !(e.DoRelease? && e.id == id) && !(e.DoReclaim? && e.id == id) && !(e.DoDelKey? && e.id == id)
    ensures id in Step(t, e).nodes
  {
    hide Indexed; hide Keyed; hide KeyHeld; hide Hash; hide Lookup; hide Found; hide Enter; hide Without; hide DropKey;
    match e
    case DoFindKey(mac, hint, bss) =>
      if bss in t.nodes {
        FoundIsNode(t, mac, hint, bss);
        HandInv(t, Found(t, mac, hint, bss));
        EnterInv(Hand(t, Found(t, mac, hint, bss)), Found(t, mac, hint, bss));
      }
    case DoReclaim(b) =>
      if b in t.list {
        InList(t, b);
        ReclaimInv(t, b);
        DropKeyIndexed(t, b);
      }
    case DoDelKey(b) =>
      if b in t.nodes {
        DelKeyInv(t, b);
        DropKeyIndexed(t, b);
      }
    case _ =>
  }

  /** In every run, a node goes exactly when its last claim does: the holder's, the table's, or the key map's. */
  lemma GoesWithLastClaim(keyixmax: nat, es: seq<Event>, e: Event, id: Id)
    requires id in Run(keyixmax, es).nodes
    ensures var t := Run(keyixmax, es);
            id !in Run(keyixmax, es + [e]).nodes <==>
              match e
              case DoRelease(b) => b == id && t.held[id] == 1 && Claims(t, id) == 1
              case DoReclaim(b) => b == id && t.nodes[id].inTable && t.held[id] == 0
              case DoDelKey(b) => b == id && KeyHeld(t, id) && Claims(t, id) == 1
              case _ => false
  {
    hide Run; hide Hash; hide Keyed; hide Without; hide DropKey; hide Release; hide Reclaim; hide DelKey;
    var t := Run(keyixmax, es);
    RunNext(keyixmax, es, e);
    if e.DoRelease? && e.id == id {
      if t.held[id] > 0 {
        ReleaseInv(t, id);
      }
    } else if e.DoReclaim? && e.id == id {
      if id in t.list {
        ReclaimInv(t, id);
      }
    } else if e.DoDelKey? && e.id == id {
      DelKeyInv(t, id);
    } else {
      OthersStay(t, e, id);
    }
  }

  // ---------------------------------------------------------------------------
  // The order of list and chains

  /** A list, or a list with one node taken out. */
  ghost predicate Thinned(s: seq<Id>, u: seq<Id>) { u == s || exists b :: u == Without(s, b) }

  /** Setting up a node puts it behind the list and in front of its chain; nothing else adds to them. */
  lemma ListAfter(t: Table, e: Event, h: nat)
    requires Inv(t) && h < HASHSIZE
    ensures var u := Step(t, e);
            && |u.chains| == HASHSIZE == |t.chains|
            && (e.DoSetup? && Honest(t, e) ==>
                  u.list == t.list + [e.id] && u.chains[h] == (if h == Hash(e.mac) then [e.id] else []) + t.chains[h])
            && (!(e.DoSetup? && Honest(t, e)) ==> Thinned(t.list, u.list) && Thinned(t.chains[h], u.chains[h]))
  {
    hide Hash; hide Keyed; hide KeyHeld; hide Without; hide Lookup; hide Found; hide Counted;
  }

  /** When a node was last set up, counted from 1; 0 if never. */
  ghost function Stamp(keyixmax: nat, es: seq<Event>, id: Id): (k: nat)
    ensures k <= |es|
    decreases |es|
  {
    if es == [] then 0
    else
      var n := |es| - 1;
      if es[n].DoSetup? && es[n].id == id && Honest(Run(keyixmax, es[..n]), es[n]) then |es|
      else Stamp(keyixmax, es[..n], id)
  }

  ghost predicate Rising(s: seq<Id>, f: Id -> nat) { forall i, j :: 0 <= i < j < |s| ==> f(s[i]) < f(s[j]) }

  ghost predicate Falling(s: seq<Id>, f: Id -> nat) { forall i, j :: 0 <= i < j < |s| ==> f(s[i]) > f(s[j]) }

  /** Where the elements of a thinned list stood. */
  lemma {:induction false} WithoutPlaces(s: seq<Id>, b: Id, i: nat, j: nat) returns (k: nat, l: nat)
    requires i < j < |Without(s, b)|
    ensures k < l < |s| && Without(s, b)[i] == s[k] && Without(s, b)[j] == s[l]
  {
    if s[0] == b {
      k, l := WithoutPlaces(s[1..], b, i, j);
      k, l := k + 1, l + 1;
    } else if i > 0 {
      k, l := WithoutPlaces(s[1..], b, i - 1, j - 1);
      k, l := k + 1, l + 1;
    } else {
      k := 0;
      l := WithoutPlace(s[1..], b, j - 1);
      l := l + 1;
    }
  }

  lemma {:induction false} WithoutPlace(s: seq<Id>, b: Id, j: nat) returns (l: nat)
    requires j < |Without(s, b)|
    ensures l < |s| && Without(s, b)[j] == s[l]
  {
    if s[0] == b {
      l := WithoutPlace(s[1..], b, j);
      l := l + 1;
    } else if j > 0 {
      l := WithoutPlace(s[1..], b, j - 1);
      l := l + 1;
    } else {
      l := 0;
    }
  }

  lemma ThinnedKeeps(s: seq<Id>, u: seq<Id>, f: Id -> nat)
    requires Thinned(s, u)
    ensures (Rising(s, f) ==> Rising(u, f)) && (Falling(s, f) ==> Falling(u, f))
    ensures forall x :: x in u ==> x in s
  {
    hide Without;
    if u != s {
      var b :| u == Without(s, b);
      forall i, j | 0 <= i < j < |u|
        ensures (Rising(s, f) ==> f(u[i]) < f(u[j])) && (Falling(s, f) ==> f(u[i]) > f(u[j]))
      {
        var k, l := WithoutPlaces(s, b, i, j);
      }
      forall j | 0 <= j < |u| ensures u[j] in s {
        var l := WithoutPlace(s, b, j);
      }
    }
  }

  ghost function Stamps(keyixmax: nat, es: seq<Event>): Id -> nat { id => Stamp(keyixmax, es, id) }

  lemma StampNext(keyixmax: nat, es: seq<Event>, id: Id)
    requires es != []
    ensures var n := |es| - 1;
            Stamp(keyixmax, es, id) ==
            if es[n].DoSetup? && es[n].id == id && Honest(Run(keyixmax, es[..n]), es[n]) then |es|
            else Stamp(keyixmax, es[..n], id)
  {
  }

  /** In every run the list is in the order in which its nodes were set up, and every chain in the opposite one. */
  lemma {:induction false} InSetupOrder(keyixmax: nat, es: seq<Event>, h: nat)
    requires h < HASHSIZE
    ensures var t, f := Run(keyixmax, es), Stamps(keyixmax, es);
            |t.chains| == HASHSIZE && Rising(t.list, f) && Falling(t.chains[h], f)
    decreases |es|
  {
    hide Step; hide Inv; hide Stamp; hide Honest; hide Hash;
    if es == [] {
      NoNodes(keyixmax);
    } else {
      var n := |es| - 1;
      var t, e, f := Run(keyixmax, es[..n]), es[n], Stamps(keyixmax, es[..n]);
      InSetupOrder(keyixmax, es[..n], h);
      ListAfter(t, e, h);
      var u, g := Run(keyixmax, es), Stamps(keyixmax, es);
      if e.DoSetup? && Honest(t, e) {
        NotYetListed(t, e);
        forall x | x in t.list || x in t.chains[h] ensures g(x) == f(x) < g(e.id) {
          StampNext(keyixmax, es, x);
          StampNext(keyixmax, es, e.id);
        }
        assert forall x | x in t.list :: g(x) == f(x);
      } else {
        forall x ensures g(x) == f(x) {
          StampNext(keyixmax, es, x);
        }
        ThinnedKeeps(t.list, u.list, f);
        ThinnedKeeps(t.chains[h], u.chains[h], f);
      }
    }
  }

  lemma NoNodes(keyixmax: nat)
    ensures Run(keyixmax, []) == Empty(keyixmax)
  {
  }

  lemma NotYetListed(t: Table, e: Event)
    requires Inv(t) && e.DoSetup? && Honest(t, e)
    ensures e.id !in t.list && |t.chains| == HASHSIZE && forall h :: 0 <= h < HASHSIZE ==> e.id !in t.chains[h]
  {
  }

  /** Of several nodes with one address, lookup finds the one that was set up last. */
  lemma LookupNewest(keyixmax: nat, es: seq<Event>, mac: Mac, b: Id)
    ensures var t := Run(keyixmax, es);
            |t.chains| == HASHSIZE && (b in t.list ==> b in t.nodes)
    ensures var t := Run(keyixmax, es);
            b in t.list && t.nodes[b].mac == mac ==>
              Lookup(t, mac).Some? && Stamp(keyixmax, es, b) <= Stamp(keyixmax, es, Lookup(t, mac).value)
  {
    hide Step; hide Stamp; hide Honest;
    var t := Run(keyixmax, es);
    InSetupOrder(keyixmax, es, Hash(mac));
    if b in t.list && t.nodes[b].mac == mac {
      assert b in t.chains[Hash(mac)];
      FirstInChain(t, t.chains[Hash(mac)], mac, b, Stamps(keyixmax, es));
    }
  }

  lemma {:induction false} FirstInChain(t: Table, chain: seq<Id>, mac: Mac, b: Id, f: Id -> nat)
    requires Falling(chain, f) && b in chain && b in t.nodes && t.nodes[b].mac == mac
    ensures FindIn(t, chain, mac).Some? && f(b) <= f(FindIn(t, chain, mac).value)
  {
    if chain[0] in t.nodes && t.nodes[chain[0]].mac == mac {
      var k :| 0 <= k < |chain| && chain[k] == b;
    } else {
      assert b in chain[1..];
      FirstInChain(t, chain[1..], mac, b, f);
    }
  }
}
