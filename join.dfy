/** The join both getters perform before any record is read: office -> node entries are
    combined with node -> (ServiceCode, group) entries into a multimap keyed by office code.
    The library version (`GetOfficeGLBIDMapping`) joins on the node code and the group is a
    GLBID; the importer (`getOfficeRegionMapping`) joins on the GLB node code and the group
    is a RegionID. The code is the same, so it is modelled once. */
module Join {

  /** OfficeNodeMapping / officeGLBNodeMapping. */
  datatype OfficeNode = OfficeNode(officeCode: string, nodeCode: string)

  /** NodeGLBIDMapping / glbNodeRegionMapping. */
  datatype NodeGroup = NodeGroup(nodeCode: string, serviceCode: string, groupId: string)

  /** OfficeGLBIDMapping / officeRegionMapping. */
  datatype OfficeGroup = OfficeGroup(officeCode: string, serviceCode: string, groupId: string)

  /** A Go map read: a missing key reads as the nil slice. */
  function Get<T>(m: map<string, seq<T>>, k: string): seq<T>
  {
    if k in m then m[k] else []
  }

  // ---------------------------------------------------------------------------
  // The node map

  /** The entries of `list` with node code `k`, in list order. */
  function EntriesOf(list: seq<NodeGroup>, k: string): seq<NodeGroup>
    decreases |list|
  {
    if list == [] then []
    else
      var last := list[|list| - 1];
      EntriesOf(list[..|list| - 1], k) + if last.nodeCode == k then [last] else []
  }

  /** The node codes that occur in `list`. */
  function NodeCodes(list: seq<NodeGroup>): set<string>
  {
    set i | 0 <= i < |list| :: list[i].nodeCode
  }

  /** The node map: every node code that occurs, with its entries in list order. */
  function NodeMap(list: seq<NodeGroup>): map<string, seq<NodeGroup>>
  {
    map k | k in NodeCodes(list) :: EntriesOf(list, k)
  }

  /** The entries kept under a node code are exactly the entries of the list with that code:
      each carries it, and each entry of the list with it is there. */
  lemma {:induction false} EntriesOfMembers(list: seq<NodeGroup>, k: string)
    ensures forall x :: x in EntriesOf(list, k) ==> x in list && x.nodeCode == k
    ensures forall i :: 0 <= i < |list| && list[i].nodeCode == k ==> list[i] in EntriesOf(list, k)
    decreases |list|
  {
    if list != [] {
      var init := list[..|list| - 1];
      EntriesOfMembers(init, k);
      forall i | 0 <= i < |list| - 1
        ensures list[i] == init[i]
      {
      }
    }
  }

  /** A node code has entries exactly when it occurs in the list. */
  lemma EntriesOfNonEmpty(list: seq<NodeGroup>, k: string)
    ensures EntriesOf(list, k) != [] <==> k in NodeCodes(list)
  {
    EntriesOfMembers(list, k);
    if k in NodeCodes(list) {
      var i :| 0 <= i < |list| && list[i].nodeCode == k;
      assert list[i] in EntriesOf(list, k);
    }
    if EntriesOf(list, k) != [] {
      var x := EntriesOf(list, k)[0];
      assert x in EntriesOf(list, k);
      var i :| 0 <= i < |list| && list[i] == x;
      assert list[i].nodeCode in NodeCodes(list);
    }
  }

  lemma EntriesOfSnoc(list: seq<NodeGroup>, e: NodeGroup, k: string)
    ensures EntriesOf(list + [e], k) == EntriesOf(list, k) + if e.nodeCode == k then [e] else []
  {
    assert (list + [e])[..|list|] == list;
  }

  lemma NodeCodesSnoc(list: seq<NodeGroup>, e: NodeGroup)
    ensures NodeCodes(list + [e]) == NodeCodes(list) + {e.nodeCode}
  {
    var t := list + [e];
    assert forall j :: 0 <= j < |list| ==> t[j] == list[j];
    assert t[|list|] == e;
  }

  /** Looking a node code up in the node map gives its entries, none when it is absent. */
  lemma GetNodeMap(list: seq<NodeGroup>, k: string)
    ensures Get(NodeMap(list), k) == EntriesOf(list, k)
  {
    EntriesOfNonEmpty(list, k);
  }

  /** Appending an entry to the list appends it to the slice under its node code. */
  lemma NodeMapSnoc(list: seq<NodeGroup>, e: NodeGroup)
    ensures NodeMap(list + [e]) == NodeMap(list)[e.nodeCode := Get(NodeMap(list), e.nodeCode) + [e]]
  {
    var l, r := NodeMap(list + [e]), NodeMap(list)[e.nodeCode := Get(NodeMap(list), e.nodeCode) + [e]];
    NodeCodesSnoc(list, e);
    assert l.Keys == r.Keys;
    forall k | k in l
      ensures l[k] == r[k]
    {
      EntriesOfSnoc(list, e, k);
      GetNodeMap(list, k);
    }
  }

  /** The loop of GetOfficeGLBIDMapping that fills nodeGLBIDMap: each entry is appended to
      the slice under its node code. */
  method BuildNodeMap(list: seq<NodeGroup>) returns (m: map<string, seq<NodeGroup>>)
    ensures m == NodeMap(list)
  {
    m := map[];
    var i := 0;
    assert list[..0] == [];
    while i < |list|
      invariant 0 <= i <= |list|
      invariant m == NodeMap(list[..i])
    {
      var e := list[i];
      NodeMapSnoc(list[..i], e);
      m := m[e.nodeCode := Get(m, e.nodeCode) + [e]];
      assert list[..i + 1] == list[..i] + [e];
      i := i + 1;
    }
    assert list[..i] == list;
  }

  // ---------------------------------------------------------------------------
  // The office mapping

  /** One mapping per node entry: the office's code with the entry's ServiceCode and group,
      in the entries' order. */
  function Expand(officeCode: string, rs: seq<NodeGroup>): (r: seq<OfficeGroup>)
    ensures |r| == |rs|
    ensures forall j :: 0 <= j < |rs| ==>
      r[j] == OfficeGroup(officeCode, rs[j].serviceCode, rs[j].groupId)
  {
    seq(|rs|, j requires 0 <= j < |rs| => OfficeGroup(officeCode, rs[j].serviceCode, rs[j].groupId))
  }

  /** What the mapping holds under office code `k` after the offices of `offices`: for each
      office with that code whose node is in `nodes`, in order, the expansion of its node's
      entries. */
  function Joined(offices: seq<OfficeNode>, nodes: map<string, seq<NodeGroup>>, k: string): seq<OfficeGroup>
    decreases |offices|
  {
    if offices == [] then []
    else
      var o := offices[|offices| - 1];
      Joined(offices[..|offices| - 1], nodes, k)
        + if o.officeCode == k && o.nodeCode in nodes then Expand(k, nodes[o.nodeCode]) else []
  }

  /** The node codes of the offices whose node is not in `nodes`. */
  function Failed(offices: seq<OfficeNode>, nodes: map<string, seq<NodeGroup>>): set<string>
  {
    set i | 0 <= i < |offices| && offices[i].nodeCode !in nodes :: offices[i].nodeCode
  }

  /** Appends the expansion of `rs` under `officeCode`, one entry at a time; the key
      appears only once something is appended. */
  method AppendExpanded(mapping: map<string, seq<OfficeGroup>>, officeCode: string, rs: seq<NodeGroup>)
    returns (m: map<string, seq<OfficeGroup>>)
    ensures rs == [] ==> m == mapping
    ensures rs != [] ==> m == mapping[officeCode := Get(mapping, officeCode) + Expand(officeCode, rs)]
  {
    m := mapping;
    var j := 0;
    while j < |rs|
      invariant 0 <= j <= |rs|
      invariant Get(m, officeCode) == Get(mapping, officeCode) + Expand(officeCode, rs[..j])
      invariant j == 0 ==> m == mapping
      invariant j > 0 ==> m == mapping[officeCode := Get(m, officeCode)]
    {
      var r := rs[j];
      var x := OfficeGroup(officeCode, r.serviceCode, r.groupId);
      assert Expand(officeCode, rs[..j + 1]) == Expand(officeCode, rs[..j]) + [x];
      m := m[officeCode := Get(m, officeCode) + [x]];
      j := j + 1;
    }
    assert rs[..j] == rs;
  }

  lemma JoinedSnoc(offices: seq<OfficeNode>, o: OfficeNode, nodes: map<string, seq<NodeGroup>>, k: string)
    ensures Joined(offices + [o], nodes, k) == Joined(offices, nodes, k)
      + if o.officeCode == k && o.nodeCode in nodes then Expand(k, nodes[o.nodeCode]) else []
  {
    assert (offices + [o])[..|offices|] == offices;
  }

  lemma FailedSnoc(offices: seq<OfficeNode>, o: OfficeNode, nodes: map<string, seq<NodeGroup>>)
    ensures Failed(offices + [o], nodes) == Failed(offices, nodes) + if o.nodeCode in nodes then {} else {o.nodeCode}
  {
    var t := offices + [o];
    assert forall j :: 0 <= j < |offices| ==> t[j] == offices[j];
    assert t[|offices|] == o;
  }

  /** `mapping` holds, under every office code, what the join of `offices` files there, and
      has exactly the keys under which something is filed. */
  ghost predicate MappingOf(mapping: map<string, seq<OfficeGroup>>, offices: seq<OfficeNode>, nodes: map<string, seq<NodeGroup>>)
  {
    forall k :: Get(mapping, k) == Joined(offices, nodes, k) && (k in mapping <==> Joined(offices, nodes, k) != [])
  }

  /** One office whose node is known: its expansion is filed under its code. */
  lemma JoinKnown(mapping: map<string, seq<OfficeGroup>>, offices: seq<OfficeNode>, o: OfficeNode,
                  nodes: map<string, seq<NodeGroup>>)
    requires MappingOf(mapping, offices, nodes) && o.nodeCode in nodes
    ensures nodes[o.nodeCode] == [] ==> MappingOf(mapping, offices + [o], nodes)
    ensures nodes[o.nodeCode] != [] ==> MappingOf(mapping[o.officeCode :=
      Get(mapping, o.officeCode) + Expand(o.officeCode, nodes[o.nodeCode])], offices + [o], nodes)
  {
    if nodes[o.nodeCode] == [] {
      JoinUnknown(mapping, offices, o, nodes);
    } else {
      var m := mapping[o.officeCode := Get(mapping, o.officeCode) + Expand(o.officeCode, nodes[o.nodeCode])];
      forall k
        ensures Get(m, k) == Joined(offices + [o], nodes, k) && (k in m <==> Joined(offices + [o], nodes, k) != [])
      {
        JoinedSnoc(offices, o, nodes, k);
        assert Get(mapping, k) == Joined(offices, nodes, k);
        assert k in mapping <==> Joined(offices, nodes, k) != [];
      }
    }
  }

  /** One office that files nothing: its node is unknown or has no entries. */
  lemma JoinUnknown(mapping: map<string, seq<OfficeGroup>>, offices: seq<OfficeNode>, o: OfficeNode,
                    nodes: map<string, seq<NodeGroup>>)
    requires MappingOf(mapping, offices, nodes) && (o.nodeCode !in nodes || nodes[o.nodeCode] == [])
    ensures MappingOf(mapping, offices + [o], nodes)
  {
    forall k
      ensures Joined(offices + [o], nodes, k) == Joined(offices, nodes, k)
    {
      JoinedSnoc(offices, o, nodes, k);
    }
  }

  /** The body of the loop over the office entries, for one more office `o`. */
  method JoinOne(mapping: map<string, seq<OfficeGroup>>, failedNodes: set<string>, done: seq<OfficeNode>,
                 o: OfficeNode, nodes: map<string, seq<NodeGroup>>)
    returns (m: map<string, seq<OfficeGroup>>, f: set<string>)
    requires MappingOf(mapping, done, nodes) && failedNodes == Failed(done, nodes)
    ensures MappingOf(m, done + [o], nodes) && f == Failed(done + [o], nodes)
  {
    FailedSnoc(done, o, nodes);
    if o.nodeCode in nodes {
      JoinKnown(mapping, done, o, nodes);
      m := AppendExpanded(mapping, o.officeCode, nodes[o.nodeCode]);
      f := failedNodes;
    } else {
      JoinUnknown(mapping, done, o, nodes);
      m := mapping;
      f := failedNodes + {o.nodeCode};
    }
  }

  /** The loop over the office entries: an office whose node is known gets one mapping per
      node entry; an office whose node is unknown adds its node code to failedNodes. The
      mapping has a key exactly when something was joined under it. */
  method JoinOffices(offices: seq<OfficeNode>, nodes: map<string, seq<NodeGroup>>)
    returns (mapping: map<string, seq<OfficeGroup>>, failedNodes: set<string>)
    ensures forall k :: Get(mapping, k) == Joined(offices, nodes, k)
    ensures forall k :: k in mapping <==> Joined(offices, nodes, k) != []
    ensures failedNodes == Failed(offices, nodes)
  {
    mapping, failedNodes := map[], {};
    var i := 0;
    while i < |offices|
      invariant 0 <= i <= |offices|
      invariant MappingOf(mapping, offices[..i], nodes)
      invariant failedNodes == Failed(offices[..i], nodes)
    {
      assert offices[..i + 1] == offices[..i] + [offices[i]];
      mapping, failedNodes := JoinOne(mapping, failedNodes, offices[..i], offices[i], nodes);
      i := i + 1;
    }
    assert offices[..i] == offices;
  }

  /** GetOfficeGLBIDMapping lines 101-120 (and getOfficeRegionMapping lines 100-119): build
      the node map, then join the offices against it. */
  method OfficeMapping(offices: seq<OfficeNode>, list: seq<NodeGroup>)
    returns (mapping: map<string, seq<OfficeGroup>>, failedNodes: set<string>)
    ensures forall k :: Get(mapping, k) == Joined(offices, NodeMap(list), k)
    ensures forall k :: k in mapping <==> Joined(offices, NodeMap(list), k) != []
    ensures failedNodes == Failed(offices, NodeMap(list))
  {
    var nodeMap := BuildNodeMap(list);
    mapping, failedNodes := JoinOffices(offices, nodeMap);
  }

  // ---------------------------------------------------------------------------
  // What the join means

  /** The mappings one office with code `k` and node `node` contributes: one per node entry
      with that node code. */
  lemma ExpandMembers(list: seq<NodeGroup>, k: string, node: string, x: OfficeGroup)
    requires node in NodeMap(list)
    ensures x in Expand(k, NodeMap(list)[node]) <==>
      exists j :: 0 <= j < |list| && list[j].nodeCode == node
        && x == OfficeGroup(k, list[j].serviceCode, list[j].groupId)
  {
    var es := NodeMap(list)[node];
    EntriesOfMembers(list, node);
    if x in Expand(k, es) {
      var t :| 0 <= t < |es| && Expand(k, es)[t] == x;
      assert es[t] in es;
      var j :| 0 <= j < |list| && list[j] == es[t];
      assert list[j].nodeCode == node;
    }
    if (exists j :: 0 <= j < |list| && list[j].nodeCode == node
                    && x == OfficeGroup(k, list[j].serviceCode, list[j].groupId))
    {
      var j :| 0 <= j < |list| && list[j].nodeCode == node
        && x == OfficeGroup(k, list[j].serviceCode, list[j].groupId);
      assert list[j] in es;
      var t :| 0 <= t < |es| && es[t] == list[j];
      assert Expand(k, es)[t] == x;
    }
  }

  /** Some office with code `k` and some node entry with its node code give `x`. */
  ghost predicate JoinGives(offices: seq<OfficeNode>, list: seq<NodeGroup>, k: string, x: OfficeGroup)
  {
    exists i, j :: 0 <= i < |offices| && 0 <= j < |list| && offices[i].officeCode == k
      && list[j].nodeCode == offices[i].nodeCode
      && x == OfficeGroup(k, list[j].serviceCode, list[j].groupId)
  }

  /** Some node entry with node code `node` gives `x` under `k`. */
  ghost predicate NodeGives(list: seq<NodeGroup>, node: string, k: string, x: OfficeGroup)
  {
    exists j :: 0 <= j < |list| && list[j].nodeCode == node
      && x == OfficeGroup(k, list[j].serviceCode, list[j].groupId)
  }

  /** The witnesses among all offices are those among all but the last, and those the last
      office gives. */
  lemma JoinWitnessSnoc(offices: seq<OfficeNode>, list: seq<NodeGroup>, k: string, x: OfficeGroup)
    requires offices != []
    ensures JoinGives(offices, list, k, x) <==>
      (JoinGives(offices[..|offices| - 1], list, k, x)
       || (offices[|offices| - 1].officeCode == k && NodeGives(list, offices[|offices| - 1].nodeCode, k, x)))
  {
    var n := |offices| - 1;
    var init := offices[..n];
    if JoinGives(offices, list, k, x) {
      var i, j :| 0 <= i < |offices| && 0 <= j < |list| && offices[i].officeCode == k
        && list[j].nodeCode == offices[i].nodeCode
        && x == OfficeGroup(k, list[j].serviceCode, list[j].groupId);
      if i < n {
        assert init[i] == offices[i];
      }
    }
    if JoinGives(init, list, k, x) {
      var i, j :| 0 <= i < |init| && 0 <= j < |list| && init[i].officeCode == k
        && list[j].nodeCode == init[i].nodeCode
        && x == OfficeGroup(k, list[j].serviceCode, list[j].groupId);
      assert init[i] == offices[i];
    }
  }

  /** An unknown node code is carried by no node entry. */
  lemma NotInNodeMap(list: seq<NodeGroup>, node: string)
    requires node !in NodeMap(list)
    ensures forall j :: 0 <= j < |list| ==> list[j].nodeCode != node
  {
    assert forall j :: 0 <= j < |list| ==> list[j].nodeCode in NodeCodes(list);
  }

  /** An entry is joined under office code `k` exactly when some office with code `k` and
      some node entry with that office's node code give it: office code from the office,
      ServiceCode and group from the node entry. */
  lemma {:induction false} JoinedMembers(offices: seq<OfficeNode>, list: seq<NodeGroup>, k: string, x: OfficeGroup)
    ensures x in Joined(offices, NodeMap(list), k) <==>
      exists i, j :: 0 <= i < |offices| && 0 <= j < |list| && offices[i].officeCode == k
        && list[j].nodeCode == offices[i].nodeCode
        && x == OfficeGroup(k, list[j].serviceCode, list[j].groupId)
    decreases |offices|
  {
    var nodes := NodeMap(list);
    if offices != [] {
      var n := |offices| - 1;
      var init, o := offices[..n], offices[n];
      JoinedMembers(init, list, k, x);
      JoinWitnessSnoc(offices, list, k, x);
      if o.officeCode == k && o.nodeCode in nodes {
        ExpandMembers(list, k, o.nodeCode, x);
      } else if o.officeCode == k {
        NotInNodeMap(list, o.nodeCode);
      }
    }
  }

  /** A node code is reported as failed exactly when some office names it and no node entry
      carries it. */
  lemma FailedMembers(offices: seq<OfficeNode>, list: seq<NodeGroup>, c: string)
    ensures c in Failed(offices, NodeMap(list)) <==>
      ((exists i :: 0 <= i < |offices| && offices[i].nodeCode == c)
       && (forall j :: 0 <= j < |list| ==> list[j].nodeCode != c))
  {
    if c in Failed(offices, NodeMap(list)) {
      forall j | 0 <= j < |list|
        ensures list[j].nodeCode != c
      {
        assert list[j].nodeCode in NodeCodes(list);
      }
    }
    if (exists i :: 0 <= i < |offices| && offices[i].nodeCode == c)
      && forall j :: 0 <= j < |list| ==> list[j].nodeCode != c
    {
      var i :| 0 <= i < |offices| && offices[i].nodeCode == c;
      assert offices[i].nodeCode !in NodeMap(list);
    }
  }

  /** An office code has a mapping exactly when some office with that code has a node that
      some node entry carries. */
  lemma JoinedKeys(offices: seq<OfficeNode>, list: seq<NodeGroup>, k: string)
    ensures Joined(offices, NodeMap(list), k) != [] <==>
      exists i, j :: 0 <= i < |offices| && 0 <= j < |list| && offices[i].officeCode == k
        && list[j].nodeCode == offices[i].nodeCode
  {
    var joined := Joined(offices, NodeMap(list), k);
    if joined != [] {
      assert joined[0] in joined;
      JoinedMembers(offices, list, k, joined[0]);
    }
    if (exists i, j :: 0 <= i < |offices| && 0 <= j < |list| && offices[i].officeCode == k
                       && list[j].nodeCode == offices[i].nodeCode)
    {
      var i, j :| 0 <= i < |offices| && 0 <= j < |list| && offices[i].officeCode == k
        && list[j].nodeCode == offices[i].nodeCode;
      JoinedMembers(offices, list, k, OfficeGroup(k, list[j].serviceCode, list[j].groupId));
    }
  }

  /** Every joined entry carries the office code it is filed under. */
  lemma {:induction false} JoinedOfficeCode(offices: seq<OfficeNode>, nodes: map<string, seq<NodeGroup>>, k: string)
    ensures forall x :: x in Joined(offices, nodes, k) ==> x.officeCode == k
    decreases |offices|
  {
    if offices != [] {
      JoinedOfficeCode(offices[..|offices| - 1], nodes, k);
    }
  }
}
