/** The conversion handler: it interns OpenStreetMap objects, whose ids are
    sparse 64-bit numbers, into buffers indexed by dense ids 0, 1, 2, ...
    An id table maps each external id to its dense id; a node or way is
    converted once and found again by its external id afterwards. */
module Handler {
  import opened Options
  import Cardinality

  /** An external (OpenStreetMap) object id. */
  type OsmId = int
  /** A dense internal object id. */
  type ObjectId = nat

  /* ---------------------------------------------------------------------- */
  /* Input objects (as the OSM reader delivers them) and internal objects   */
  /* ---------------------------------------------------------------------- */

  datatype NodeRef = NodeRef(ref: OsmId, lon: real, lat: real)

  datatype OsmWay = OsmWay(id: OsmId, nodes: seq<NodeRef>)

  datatype ItemType = NodeItem | WayItem | RelationItem

  /** A relation member; the role is None where the reader has no role string. */
  datatype OsmMember = OsmMember(ref: OsmId, itemType: ItemType, role: Option<string>)

  datatype OsmRelation = OsmRelation(id: OsmId, tags: map<string, string>, members: seq<OsmMember>)

  datatype Node = Node(id: ObjectId, lon: real, lat: real)

  datatype Way = Way(id: ObjectId, nodes: seq<ObjectId>)

  datatype MemberType = WayMember

  datatype Member = Member(ref: ObjectId, memberType: MemberType, role: string)

  datatype Relation = Relation(id: ObjectId, tags: seq<(string, string)>, members: seq<Member>)

  /* ---------------------------------------------------------------------- */
  /* Id tables                                                              */
  /* ---------------------------------------------------------------------- */

  /** An id table is dense when it is injective and its values lie below its size. */
  ghost predicate Dense(ids: map<OsmId, ObjectId>)
  {
    && (forall a, b :: a in ids && b in ids && ids[a] == ids[b] ==> a == b)
    && (forall a :: a in ids ==> ids[a] < |ids|)
  }

  /** A dense table maps its keys onto exactly 0 .. |ids| - 1. */
  lemma DenseOnto(ids: map<OsmId, ObjectId>)
    requires Dense(ids)
    ensures ids.Values == Cardinality.Below(|ids|)
  {
    var f := (a: OsmId) => if a in ids then ids[a] else 0;
    forall a, b | a in ids.Keys && b in ids.Keys && f(a) == f(b) ensures a == b {
      assert f(a) == ids[a] && f(b) == ids[b];
    }
    Cardinality.InjectiveImageSize(ids.Keys, f);
    forall v | v in ids.Values ensures v in Cardinality.Image(ids.Keys, f) && v in Cardinality.Below(|ids|) {
      var a :| a in ids.Keys && ids[a] == v;
      assert f(a) == v;
    }
    forall v | v in Cardinality.Image(ids.Keys, f) ensures v in ids.Values {
      var a :| a in ids.Keys && f(a) == v;
      assert ids[a] == v;
    }
    assert Cardinality.Image(ids.Keys, f) == ids.Values;
    Cardinality.SubsetOfSameSize(ids.Values, Cardinality.Below(|ids|));
  }

  /** Adding a new key with the next dense id keeps a table dense. */
  lemma DenseExtend(ids: map<OsmId, ObjectId>, key: OsmId)
    requires Dense(ids) && key !in ids
    ensures |ids[key := |ids|]| == |ids| + 1
    ensures Dense(ids[key := |ids|])
  {
    assert ids[key := |ids|].Keys == ids.Keys + {key};
  }

  /** A buffer matches its table when they have the same size and the element
      at index k has id k. */
  ghost predicate NodeTable(ids: map<OsmId, ObjectId>, nodes: seq<Node>)
  {
    && |nodes| == |ids|
    && (forall k :: 0 <= k < |nodes| ==> nodes[k].id == k)
    && Dense(ids)
  }

  /** One map extends another: every key of the first keeps its id. */
  ghost predicate Extends(small: map<OsmId, ObjectId>, large: map<OsmId, ObjectId>)
  {
    forall a :: a in small ==> a in large && large[a] == small[a]
  }

  lemma ExtendsTransitive(a: map<OsmId, ObjectId>, b: map<OsmId, ObjectId>, c: map<OsmId, ObjectId>)
    requires Extends(a, b) && Extends(b, c)
    ensures Extends(a, c)
  {
  }

  /** The node table after create_node: unchanged for a known ref; otherwise
      the ref gets the next id and a node with that id is appended. */
  function InternNode(ids: map<OsmId, ObjectId>, nodes: seq<Node>, r: NodeRef): (map<OsmId, ObjectId>, seq<Node>)
  {
    if r.ref in ids then (ids, nodes)
    else (ids[r.ref := |ids|], nodes + [Node(|ids|, r.lon, r.lat)])
  }

  /** The node table after create_node on each of the refs in turn. */
  function InternNodes(ids: map<OsmId, ObjectId>, nodes: seq<Node>, refs: seq<NodeRef>): (map<OsmId, ObjectId>, seq<Node>)
  {
    if refs == [] then (ids, nodes)
    else
      var prev := InternNodes(ids, nodes, refs[..|refs| - 1]);
      InternNode(prev.0, prev.1, refs[|refs| - 1])
  }

  /** create_node keeps a node table consistent, keeps every known ref's id and
      every existing node, and maps the given ref. */
  lemma InternNodeKeepsTable(ids: map<OsmId, ObjectId>, nodes: seq<Node>, r: NodeRef)
    requires NodeTable(ids, nodes)
    ensures var (ids', nodes') := InternNode(ids, nodes, r);
            && NodeTable(ids', nodes')
            && Extends(ids, ids')
            && nodes <= nodes'
            && r.ref in ids'
  {
    if r.ref !in ids {
      DenseExtend(ids, r.ref);
    }
  }

  /** Interning a list of refs keeps a node table consistent, keeps every known
      ref's id and every existing node, and maps every ref of the list. */
  lemma {:induction false} InternNodesKeepsTable(ids: map<OsmId, ObjectId>, nodes: seq<Node>, refs: seq<NodeRef>)
    requires NodeTable(ids, nodes)
    ensures var (ids', nodes') := InternNodes(ids, nodes, refs);
            && NodeTable(ids', nodes')
            && Extends(ids, ids')
            && nodes <= nodes'
            && forall j :: 0 <= j < |refs| ==> refs[j].ref in ids'
  {
    if refs != [] {
      var init := refs[..|refs| - 1];
      InternNodesKeepsTable(ids, nodes, init);
      var prev := InternNodes(ids, nodes, init);
      InternNodeKeepsTable(prev.0, prev.1, refs[|refs| - 1]);
      var (ids', nodes') := InternNodes(ids, nodes, refs);
      forall j | 0 <= j < |refs| ensures refs[j].ref in ids' {
        if j < |refs| - 1 {
          assert refs[j] == init[j];
        }
      }
    }
  }

  /** The interning state: the node table and buffer, the way table and buffer. */
  datatype Tables = Tables(nids: map<OsmId, ObjectId>, nodes: seq<Node>, wids: map<OsmId, ObjectId>, ways: seq<Way>)

  /** The dense ids of a way's nodes, looked up in a node table. */
  function NodeIds(nids: map<OsmId, ObjectId>, refs: seq<NodeRef>): (r: seq<ObjectId>)
    ensures |r| == |refs|
    ensures forall j :: 0 <= j < |refs| && refs[j].ref in nids ==> r[j] == nids[refs[j].ref]
  {
    seq(|refs|, j requires 0 <= j < |refs| => if refs[j].ref in nids then nids[refs[j].ref] else 0)
  }

  /** One more ref: its id is appended, and the ids of the earlier refs stay
      when the table only grows. */
  lemma NodeIdsSnoc(nids: map<OsmId, ObjectId>, nids': map<OsmId, ObjectId>, refs: seq<NodeRef>, k: nat)
    requires k < |refs|
    requires forall j :: 0 <= j < k ==> refs[j].ref in nids
    requires Extends(nids, nids') && refs[k].ref in nids'
    ensures NodeIds(nids', refs[..k + 1]) == NodeIds(nids, refs[..k]) + [nids'[refs[k].ref]]
  {
  }

  /** The tables after create_way: unchanged for a known way id; otherwise the
      way gets the next dense id, its nodes are interned in order, and the way
      is appended with the dense ids of its nodes. */
  function InternWay(t: Tables, w: OsmWay): Tables
  {
    if w.id in t.wids then t
    else
      var (nids', nodes') := InternNodes(t.nids, t.nodes, w.nodes);
      Tables(nids', nodes', t.wids[w.id := |t.wids|], t.ways + [Way(|t.wids|, NodeIds(nids', w.nodes))])
  }

  /** The tables after complete_relation's member loop: create_way on the way
      of each member with a way ref, in order. */
  function InternMemberWays(t: Tables, members: seq<OsmMember>, memberWays: map<OsmId, OsmWay>): Tables
    requires forall m :: m in members && IsWayRef(m) ==> m.ref in memberWays
  {
    if members == [] then t
    else
      var init := members[..|members| - 1];
      var m := members[|members| - 1];
      assert forall x :: x in init ==> x in members;
      var prev := InternMemberWays(t, init, memberWays);
      if IsWayRef(m) then InternWay(prev, memberWays[m.ref]) else prev
  }

  /** One more member: its way is interned after those of the earlier members. */
  lemma InternMemberWaysSnoc(t: Tables, members: seq<OsmMember>, m: OsmMember, memberWays: map<OsmId, OsmWay>)
    requires forall x :: x in members + [m] && IsWayRef(x) ==> x.ref in memberWays
    ensures forall x :: x in members && IsWayRef(x) ==> x.ref in memberWays
    ensures InternMemberWays(t, members + [m], memberWays)
            == (var prev := InternMemberWays(t, members, memberWays);
                if IsWayRef(m) then InternWay(prev, memberWays[m.ref]) else prev)
  {
    assert forall x :: x in members ==> x in members + [m];
    assert (members + [m])[..|members + [m]| - 1] == members;
  }

  /* ---------------------------------------------------------------------- */
  /* Relation members                                                       */
  /* ---------------------------------------------------------------------- */

  /** A member complete_relation converts a way for: a way with a non-zero
      ref and a role. */
  predicate IsWayRef(m: OsmMember)
  {
    m.ref != 0 && m.itemType == WayItem && m.role.Some?
  }

  /** A member complete_relation keeps: a way member whose role is "outer" or "inner". */
  predicate Qualifies(m: OsmMember)
  {
    IsWayRef(m) && (m.role.value == "outer" || m.role.value == "inner")
  }

  /** The members complete_relation keeps, in order, with their ways' dense ids. */
  function KeptMembers(members: seq<OsmMember>, wids: map<OsmId, ObjectId>): (r: seq<Member>)
    requires forall m :: m in members && IsWayRef(m) ==> m.ref in wids
    ensures |r| <= |members|
    ensures forall k :: 0 <= k < |r| ==> r[k].memberType == WayMember && (r[k].role == "outer" || r[k].role == "inner")
  {
    if members == [] then []
    else
      var init := KeptMembers(members[..|members| - 1], wids);
      var m := members[|members| - 1];
      if Qualifies(m) then init + [Member(wids[m.ref], WayMember, m.role.value)] else init
  }

  /** Appending a member appends its conversion when it qualifies, and nothing otherwise. */
  lemma KeptMembersSnoc(members: seq<OsmMember>, m: OsmMember, wids: map<OsmId, ObjectId>)
    requires forall x :: x in members + [m] && IsWayRef(x) ==> x.ref in wids
    ensures forall x :: x in members && IsWayRef(x) ==> x.ref in wids
    ensures KeptMembers(members + [m], wids)
            == KeptMembers(members, wids) + (if Qualifies(m) then [Member(wids[m.ref], WayMember, m.role.value)] else [])
  {
    assert forall x :: x in members ==> x in members + [m];
    assert (members + [m])[..|members + [m]| - 1] == members;
  }

  /** Exactly the qualifying members are kept: each kept member comes from a
      qualifying member, and each qualifying member is kept. */
  lemma {:induction false} KeptMembersExactly(members: seq<OsmMember>, wids: map<OsmId, ObjectId>)
    requires forall m :: m in members && IsWayRef(m) ==> m.ref in wids
    ensures forall x :: x in KeptMembers(members, wids) ==>
              exists m :: m in members && Qualifies(m) && x == Member(wids[m.ref], WayMember, m.role.value)
    ensures forall m :: m in members && Qualifies(m) ==>
              Member(wids[m.ref], WayMember, m.role.value) in KeptMembers(members, wids)
  {
    if members != [] {
      var init := members[..|members| - 1];
      assert forall m :: m in init ==> m in members;
      KeptMembersExactly(init, wids);
      assert members == init + [members[|members| - 1]];
    }
  }

  /** The kept members do not change when the way table only grows. */
  lemma {:induction false} KeptMembersStable(members: seq<OsmMember>, wids: map<OsmId, ObjectId>, wids': map<OsmId, ObjectId>)
    requires forall m :: m in members && IsWayRef(m) ==> m.ref in wids
    requires Extends(wids, wids')
    ensures forall m :: m in members && IsWayRef(m) ==> m.ref in wids'
    ensures KeptMembers(members, wids) == KeptMembers(members, wids')
  {
    if members != [] {
      var init := members[..|members| - 1];
      assert forall m :: m in init ==> m in members;
      KeptMembersStable(init, wids, wids');
    }
  }

  /** Every kept member refers to a way id below the size of a dense way table. */
  lemma {:induction false} KeptMembersInRange(members: seq<OsmMember>, wids: map<OsmId, ObjectId>)
    requires Dense(wids)
    requires forall m :: m in members && IsWayRef(m) ==> m.ref in wids
    ensures forall j :: 0 <= j < |KeptMembers(members, wids)| ==> KeptMembers(members, wids)[j].ref < |wids|
  {
    if members != [] {
      var init := members[..|members| - 1];
      assert forall m :: m in init ==> m in members;
      KeptMembersInRange(init, wids);
    }
  }

  /** A tag's value, or "" when the tag is missing. */
  function TagValue(tags: map<string, string>, key: string): (v: string)
    ensures key in tags ==> v == tags[key]
    ensures key !in tags ==> v == ""
  {
    if key in tags then tags[key] else ""
  }

  /** The three tags complete_relation copies, in order. */
  function RelationTags(tags: map<string, string>): (r: seq<(string, string)>)
    ensures |r| == 3
    ensures r[0].0 == "name" && r[1].0 == "type" && r[2].0 == "admin_level"
    ensures forall k :: 0 <= k < 3 ==> r[k].1 == TagValue(tags, r[k].0)
  {
    [("name", TagValue(tags, "name")), ("type", TagValue(tags, "type")), ("admin_level", TagValue(tags, "admin_level"))]
  }

  /* ---------------------------------------------------------------------- */
  /* The handler                                                            */
  /* ---------------------------------------------------------------------- */

  class ConvertHandler {
    var nodes: seq<Node>
    var ways: seq<Way>
    var relations: seq<Relation>
    var nids: map<OsmId, ObjectId>
    var wids: map<OsmId, ObjectId>
    var rids: map<OsmId, ObjectId>

    /** Both buffers match their tables, and every stored id refers into the
        buffer it names. */
    ghost predicate Valid()
      reads this
    {
      && NodeTable(nids, nodes)
      && |ways| == |wids|
      && (forall k :: 0 <= k < |ways| ==> ways[k].id == k)
      && Dense(wids)
      && (forall k, j :: 0 <= k < |ways| && 0 <= j < |ways[k].nodes| ==> ways[k].nodes[j] < |nodes|)
      && (forall k, j :: 0 <= k < |relations| && 0 <= j < |relations[k].members| ==>
            relations[k].members[j].ref < |ways|)
    }

    /** The dense ids in use are exactly the buffer indices, for nodes and for ways. */
    lemma IdsAreBufferIndices()
      requires Valid()
      ensures nids.Values == Cardinality.Below(|nodes|)
      ensures wids.Values == Cardinality.Below(|ways|)
    {
      DenseOnto(nids);
      DenseOnto(wids);
    }

    /** The interning state held in the handler's fields. */
    function Snapshot(): Tables
      reads this
    {
      Tables(nids, nodes, wids, ways)
    }

    constructor ()
      ensures Valid()
      ensures nodes == [] && ways == [] && relations == []
      ensures nids == map[] && wids == map[] && rids == map[]
    {
      nodes, ways, relations := [], [], [];
      nids, wids, rids := map[], map[], map[];
    }

    /** create_node: returns the node of a known ref; otherwise gives the ref
        the next dense id and appends a node with that id and the ref's
        coordinates. */
    method CreateNode(osmNode: NodeRef) returns (node: Node)
      requires Valid()
      modifies this
      ensures Valid()
      ensures (nids, nodes) == InternNode(old(nids), old(nodes), osmNode)
      ensures osmNode.ref in nids && nids[osmNode.ref] < |nodes| && node == nodes[nids[osmNode.ref]]
      ensures node.id == nids[osmNode.ref]
      ensures osmNode.ref !in old(nids) ==> node == Node(|old(nids)|, osmNode.lon, osmNode.lat)
      ensures ways == old(ways) && wids == old(wids) && relations == old(relations) && rids == old(rids)
    {
      InternNodeKeepsTable(nids, nodes, osmNode);
      if osmNode.ref in nids {
        return nodes[nids[osmNode.ref]];
      }
      var mappedId := |nids|;
      nids := nids[osmNode.ref := mappedId];
      nodes := nodes + [Node(mappedId, osmNode.lon, osmNode.lat)];
      return nodes[mappedId];
    }

    /** create_way: returns the way of a known id and changes nothing;
        otherwise gives the way the next dense id, appends it, and fills its
        node list with the dense ids of its nodes, creating those not yet seen. */
    method CreateWay(osmWay: OsmWay) returns (way: Way)
      requires Valid()
      modifies this
      ensures Valid()
      ensures osmWay.id in wids && wids[osmWay.id] < |ways| && way == ways[wids[osmWay.id]]
      ensures Extends(old(wids), wids) && Extends(old(nids), nids)
      ensures old(ways) <= ways && old(nodes) <= nodes
      ensures relations == old(relations) && rids == old(rids)
      ensures Snapshot() == InternWay(old(Snapshot()), osmWay)
      ensures osmWay.id in old(wids) ==>
                nids == old(nids) && nodes == old(nodes) && wids == old(wids) && ways == old(ways)
      ensures osmWay.id !in old(wids) ==>
                && wids == old(wids)[osmWay.id := |old(wids)|]
                && ways == old(ways) + [way]
                && way.id == |old(wids)|
                && (nids, nodes) == InternNodes(old(nids), old(nodes), osmWay.nodes)
                && |way.nodes| == |osmWay.nodes|
                && forall j :: 0 <= j < |way.nodes| ==> osmWay.nodes[j].ref in nids && way.nodes[j] == nids[osmWay.nodes[j].ref]
    {
      if osmWay.id in wids {
        return ways[wids[osmWay.id]];
      }
      var mappedId := |wids|;
      DenseExtend(wids, osmWay.id);
      wids := wids[osmWay.id := mappedId];
      ways := ways + [Way(mappedId, [])];
      AddWayNodes(mappedId, osmWay.nodes);
      way := ways[mappedId];
      assert way.nodes == NodeIds(nids, osmWay.nodes);
    }

    /** The node loop of create_way: converts each node in turn and appends its
        dense id to the node list of the way at index w. */
    method AddWayNodes(w: ObjectId, refs: seq<NodeRef>)
      requires Valid() && w < |ways| && ways[w].nodes == []
      modifies this
      ensures Valid()
      ensures (nids, nodes) == InternNodes(old(nids), old(nodes), refs)
      ensures Extends(old(nids), nids) && old(nodes) <= nodes
      ensures forall j :: 0 <= j < |refs| ==> refs[j].ref in nids
      ensures ways == old(ways)[w := old(ways)[w].(nodes := NodeIds(nids, refs))]
      ensures wids == old(wids) && relations == old(relations) && rids == old(rids)
    {
      assert refs[..|refs|] == refs;
      for k := 0 to |refs|
        invariant Valid()
        invariant (nids, nodes) == InternNodes(old(nids), old(nodes), refs[..k])
        invariant Extends(old(nids), nids) && old(nodes) <= nodes
        invariant forall j :: 0 <= j < k ==> refs[j].ref in nids
        invariant ways == old(ways)[w := old(ways)[w].(nodes := NodeIds(nids, refs[..k]))]
        invariant wids == old(wids) && relations == old(relations) && rids == old(rids)
      {
        ghost var n := nids;
        AddWayNode(w, refs[k]);
        ExtendsTransitive(old(nids), n, nids);
        NodeIdsSnoc(n, nids, refs, k);
        assert refs[..k + 1][..k] == refs[..k];
      }
    }

    /** One step of create_way's node loop: converts the node and appends its
        dense id to the node list of the way at index w. */
    method AddWayNode(w: ObjectId, r: NodeRef)
      requires Valid() && w < |ways|
      modifies this
      ensures Valid()
      ensures (nids, nodes) == InternNode(old(nids), old(nodes), r)
      ensures Extends(old(nids), nids) && old(nodes) <= nodes
      ensures r.ref in nids
      ensures ways == old(ways)[w := old(ways[w]).(nodes := old(ways[w].nodes) + [nids[r.ref]])]
      ensures wids == old(wids) && relations == old(relations) && rids == old(rids)
    {
      var node := CreateNode(r);
      ways := ways[w := ways[w].(nodes := ways[w].nodes + [node.id])];
    }

    /** The member filter and append of complete_relation: gives the relation
        the next dense relation id, converts the way of every way member with a
        non-zero ref and a role, keeps as members only those with role "outer"
        or "inner", and appends exactly one relation. The member ways are looked
        up in memberWays, which holds the way each such member refers to. */
    method CompleteRelation(osmRelation: OsmRelation, memberWays: map<OsmId, OsmWay>)
      requires Valid()
      requires forall m :: m in osmRelation.members && IsWayRef(m) ==>
                 m.ref in memberWays && memberWays[m.ref].id == m.ref
      modifies this
      ensures Valid()
      ensures rids == old(rids)[osmRelation.id := |old(rids)|]
      ensures Snapshot() == InternMemberWays(old(Snapshot()), osmRelation.members, memberWays)
      ensures Extends(old(wids), wids) && Extends(old(nids), nids)
      ensures forall m :: m in osmRelation.members && IsWayRef(m) ==> m.ref in wids
      ensures relations == old(relations)
                + [Relation(|old(rids)|, RelationTags(osmRelation.tags), KeptMembers(osmRelation.members, wids))]
    {
      var mappedId := |rids|;
      rids := rids[osmRelation.id := mappedId];
      var tags := RelationTags(osmRelation.tags);
      var members := ConvertMembers(osmRelation.members, memberWays);
      relations := relations + [Relation(mappedId, tags, members)];
    }

    /** The member loop of complete_relation: converts the way of every member
        with a way ref, and collects the members to keep, in order. */
    method ConvertMembers(all: seq<OsmMember>, memberWays: map<OsmId, OsmWay>) returns (members: seq<Member>)
      requires Valid()
      requires forall m :: m in all && IsWayRef(m) ==> m.ref in memberWays && memberWays[m.ref].id == m.ref
      modifies this
      ensures Valid()
      ensures Snapshot() == InternMemberWays(old(Snapshot()), all, memberWays)
      ensures Extends(old(wids), wids) && Extends(old(nids), nids)
      ensures forall m :: m in all && IsWayRef(m) ==> m.ref in wids
      ensures members == KeptMembers(all, wids)
      ensures forall j :: 0 <= j < |members| ==> members[j].ref < |ways|
      ensures relations == old(relations) && rids == old(rids)
    {
      assert all[..|all|] == all;
      members := [];
      for k := 0 to |all|
        invariant Valid()
        invariant Snapshot() == InternMemberWays(old(Snapshot()), all[..k], memberWays)
        invariant relations == old(relations) && rids == old(rids)
        invariant Extends(old(wids), wids) && Extends(old(nids), nids)
        invariant forall m :: m in all[..k] && IsWayRef(m) ==> m.ref in wids
        invariant members == KeptMembers(all[..k], wids)
      {
        ghost var w, n := wids, nids;
        members := ConvertNext(all, k, members, memberWays);
        assert all[..k + 1] == all[..k] + [all[k]];
        InternMemberWaysSnoc(old(Snapshot()), all[..k], all[k], memberWays);
        ExtendsTransitive(old(wids), w, wids);
        ExtendsTransitive(old(nids), n, nids);
      }
      KeptMembersInRange(all, wids);
    }

    /** One iteration of the member loop: converts member k and extends the
        kept members of the first k members to those of the first k + 1. */
    method ConvertNext(all: seq<OsmMember>, k: nat, members: seq<Member>, memberWays: map<OsmId, OsmWay>)
      returns (members': seq<Member>)
      requires Valid() && k < |all|
      requires forall m :: m in all && IsWayRef(m) ==> m.ref in memberWays && memberWays[m.ref].id == m.ref
      requires forall m :: m in all[..k] && IsWayRef(m) ==> m.ref in wids
      requires members == KeptMembers(all[..k], wids)
      modifies this
      ensures Valid()
      ensures Snapshot() == if IsWayRef(all[k]) then InternWay(old(Snapshot()), memberWays[all[k].ref]) else old(Snapshot())
      ensures Extends(old(wids), wids) && Extends(old(nids), nids)
      ensures forall m :: m in all[..k + 1] && IsWayRef(m) ==> m.ref in wids
      ensures members' == KeptMembers(all[..k + 1], wids)
      ensures relations == old(relations) && rids == old(rids)
    {
      var m := all[k];
      assert all[..k + 1] == all[..k] + [m];
      ghost var before, n := wids, |ways|;
      var member := ConvertMember(m, memberWays);
      assert n <= |ways|;
      KeptMembersStable(all[..k], before, wids);
      KeptMembersSnoc(all[..k], m, wids);
      members' := members;
      if member.Some? {
        members' := members + [member.value];
      }
    }

    /** One step of complete_relation's member loop: converts the way of a
        member with a non-zero ref and a role, and yields the member to keep
        when its role is "outer" or "inner". */
    method ConvertMember(m: OsmMember, memberWays: map<OsmId, OsmWay>) returns (member: Option<Member>)
      requires Valid()
      requires IsWayRef(m) ==> m.ref in memberWays && memberWays[m.ref].id == m.ref
      modifies this
      ensures Valid()
      ensures Extends(old(wids), wids) && Extends(old(nids), nids)
      ensures IsWayRef(m) ==> m.ref in wids
      ensures Snapshot() == if IsWayRef(m) then InternWay(old(Snapshot()), memberWays[m.ref]) else old(Snapshot())
      ensures member == if Qualifies(m) then Some(Member(wids[m.ref], WayMember, m.role.value)) else None
      ensures member.Some? ==> member.value.ref < |ways|
      ensures old(ways) <= ways
      ensures relations == old(relations) && rids == old(rids)
    {
      member := None;
      if m.ref != 0 && m.itemType == WayItem && m.role.Some? {
        var way := CreateWay(memberWays[m.ref]);
        var role := m.role.value;
        if role == "outer" || role == "inner" {
          member := Some(Member(way.id, WayMember, role));
        }
      }
    }
  }

}
