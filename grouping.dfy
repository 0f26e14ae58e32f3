/** The grouping pass that ends both getters: a merged record list is folded into nested
    ServiceCode -> group -> payload lists (ServiceCodeInfo / GLBInfo / NetMaskInfo in the
    library version, serviceCodeInfo / regionInfo / CIDR text in the importer). The fold keeps
    the previous ServiceCode and group and two pointers, `scInfo` to the ServiceCodeInfo last
    opened and `rInfo` to the group last opened; the pointers are indices here. The code is
    the same in both getters apart from the payload, so it is modelled once, generic in it. */
module Grouping {

  /** What the fold reads of one record: its ServiceCode, its group (GLBID or RegionID) and
      what is filed for it. */
  datatype Item<P> = Item(serviceCode: string, groupId: string, payload: P)

  /** GLBInfo / regionInfo. */
  datatype GroupInfo<P> = GroupInfo(groupId: string, list: seq<P>)

  /** ServiceCodeInfo / serviceCodeInfo. */
  datatype ServiceInfo<P> = ServiceInfo(serviceCode: string, groups: seq<GroupInfo<P>>)

  /** The fold's variables: the list built so far, prevServiceCode, prevGLBID, and the
      positions `scInfo` and `rInfo` point to (`rInfo` to group `gi` of ServiceInfo `ri`). */
  datatype State<P> = State(
    infos: seq<ServiceInfo<P>>, prevSc: string, prevGroup: string, si: nat, ri: nat, gi: nat)

  function Init<P>(): State<P>
  {
    State([], "", "", 0, 0, 0)
  }

  /** Both pointers point somewhere: they are no longer nil. */
  predicate Started<P>(st: State<P>)
  {
    st.si < |st.infos| && st.ri < |st.infos| && st.gi < |st.infos[st.ri].groups|
  }

  /** The item can be folded without dereferencing a nil pointer: either both pointers are
      set, or this is the first item and it opens both a ServiceInfo and a group. */
  ghost predicate CanStep<P>(st: State<P>, x: Item<P>)
  {
    Started(st) || (st == Init() && x.serviceCode != "" && x.groupId != "")
  }

  /** The precondition of the whole fold: the first item has a non-empty ServiceCode and a
      non-empty group; otherwise `scInfo` or `rInfo` is still nil when it is used. */
  predicate FirstOk<P>(items: seq<Item<P>>)
  {
    items == [] || (items[0].serviceCode != "" && items[0].groupId != "")
  }

  /** A new ServiceInfo for `sc` at the end; `scInfo` points to it. */
  function OpenService<P>(st: State<P>, sc: string): State<P>
  {
    st.(infos := st.infos + [ServiceInfo(sc, [])], prevSc := sc, si := |st.infos|)
  }

  /** A new group for `g` at the end of the ServiceInfo `scInfo` points to; `rInfo` points
      to it. */
  function OpenGroup<P>(st: State<P>, g: string): State<P>
    requires st.si < |st.infos|
  {
    var info := st.infos[st.si];
    st.(infos := st.infos[st.si := info.(groups := info.groups + [GroupInfo(g, [])])],
        prevGroup := g, ri := st.si, gi := |info.groups|)
  }

  /** Appends a payload to the group `rInfo` points to. */
  function Append<P>(st: State<P>, p: P): State<P>
    requires Started(st)
  {
    var info := st.infos[st.ri];
    var group := info.groups[st.gi];
    st.(infos := st.infos[st.ri := info.(groups := info.groups[st.gi := group.(list := group.list + [p])])])
  }

  /** One iteration of the fold: open a ServiceInfo if the ServiceCode changed, open a group
      if the group changed, then file the payload under `rInfo`. */
  function Step<P>(st: State<P>, x: Item<P>): (r: State<P>)
    requires CanStep(st, x)
    ensures Started(r) && r.prevSc == x.serviceCode && r.prevGroup == x.groupId
  {
    var st1 := if st.prevSc != x.serviceCode then OpenService(st, x.serviceCode) else st;
    var st2 := if st1.prevGroup != x.groupId then OpenGroup(st1, x.groupId) else st1;
    Append(st2, x.payload)
  }

  /** The fold over `items`, from the first to the last. */
  function GroupOf<P>(items: seq<Item<P>>): (r: State<P>)
    requires FirstOk(items)
    ensures items == [] ==> r == Init()
    ensures items != [] ==>
      Started(r) && r.prevSc == items[|items| - 1].serviceCode && r.prevGroup == items[|items| - 1].groupId
    decreases |items|
  {
    if items == [] then Init()
    else
      var init := items[..|items| - 1];
      assert FirstOk(init) by {
        if init != [] {
          assert init[0] == items[0];
        }
      }
      Step(GroupOf(init), items[|items| - 1])
  }

  /** The grouping loop of MergeIPMSRecords (and getIPMSRecords), with scInfo and rInfo as
      indices into the list under construction. */
  method Group<P>(items: seq<Item<P>>) returns (infos: seq<ServiceInfo<P>>)
    requires FirstOk(items)
    ensures infos == Grouped(items)
  {
    infos := [];
    var prevSc, prevGroup := "", "";
    var si: nat, ri: nat, gi: nat := 0, 0, 0;
    var i := 0;
    assert items[..0] == [];
    while i < |items|
      invariant 0 <= i <= |items|
      invariant FirstOk(items[..i])
      invariant State(infos, prevSc, prevGroup, si, ri, gi) == GroupOf(items[..i])
    {
      var x := items[i];
      assert items[..i + 1][..i] == items[..i] && items[..i + 1][i] == x;
      assert FirstOk(items[..i + 1]);
      if prevSc != x.serviceCode {
        si := |infos|;
        infos := infos + [ServiceInfo(x.serviceCode, [])];
        prevSc := x.serviceCode;
      }
      if prevGroup != x.groupId {
        gi := |infos[si].groups|;
        infos := infos[si := infos[si].(groups := infos[si].groups + [GroupInfo(x.groupId, [])])];
        ri := si;
        prevGroup := x.groupId;
      }
      var group := infos[ri].groups[gi];
      infos := infos[ri := infos[ri].(groups := infos[ri].groups[gi := group.(list := group.list + [x.payload])])];
      i := i + 1;
    }
    assert items[..i] == items;
  }

  // ---------------------------------------------------------------------------
  // Reading the result

  /** All payloads of a list of groups, in order. */
  function FlatGroups<P>(gs: seq<GroupInfo<P>>): seq<P>
    decreases |gs|
  {
    if gs == [] then [] else FlatGroups(gs[..|gs| - 1]) + gs[|gs| - 1].list
  }

  /** All payloads of the result, in order: every NetMaskAddressList one after the other. */
  function Flatten<P>(infos: seq<ServiceInfo<P>>): seq<P>
    decreases |infos|
  {
    if infos == [] then [] else Flatten(infos[..|infos| - 1]) + FlatGroups(infos[|infos| - 1].groups)
  }

  function Payloads<P>(items: seq<Item<P>>): (ps: seq<P>)
    ensures |ps| == |items| && forall i :: 0 <= i < |items| ==> ps[i] == items[i].payload
  {
    seq(|items|, i requires 0 <= i < |items| => items[i].payload)
  }

  function ServiceCodes<P>(infos: seq<ServiceInfo<P>>): (cs: seq<string>)
    ensures |cs| == |infos| && forall a :: 0 <= a < |infos| ==> cs[a] == infos[a].serviceCode
  {
    seq(|infos|, a requires 0 <= a < |infos| => infos[a].serviceCode)
  }

  function GroupIds<P>(gs: seq<GroupInfo<P>>): (ids: seq<string>)
    ensures |ids| == |gs| && forall b :: 0 <= b < |gs| ==> ids[b] == gs[b].groupId
  {
    seq(|gs|, b requires 0 <= b < |gs| => gs[b].groupId)
  }

  /** The group ids of all groups of the result, in order. */
  function AllGroupIds<P>(infos: seq<ServiceInfo<P>>): seq<string>
    decreases |infos|
  {
    if infos == [] then [] else AllGroupIds(infos[..|infos| - 1]) + GroupIds(infos[|infos| - 1].groups)
  }

  /** The ServiceCode of the last item, "" before the first (the initial prevServiceCode). */
  function LastSc<P>(items: seq<Item<P>>): string
  {
    if items == [] then "" else items[|items| - 1].serviceCode
  }

  function LastGroup<P>(items: seq<Item<P>>): string
  {
    if items == [] then "" else items[|items| - 1].groupId
  }

  /** The ServiceCodes of the items where the ServiceCode changes from the item before. */
  function ServiceHeads<P>(items: seq<Item<P>>): seq<string>
    decreases |items|
  {
    if items == [] then []
    else
      var init, x := items[..|items| - 1], items[|items| - 1];
      ServiceHeads(init) + if x.serviceCode != LastSc(init) then [x.serviceCode] else []
  }

  /** The groups of the items where the group changes from the item before. */
  function GroupHeads<P>(items: seq<Item<P>>): seq<string>
    decreases |items|
  {
    if items == [] then []
    else
      var init, x := items[..|items| - 1], items[|items| - 1];
      GroupHeads(init) + if x.groupId != LastGroup(init) then [x.groupId] else []
  }

  // ---------------------------------------------------------------------------
  // Payload order

  /** `rInfo` points to the very last group of the result and `scInfo` to the last
      ServiceInfo; no ServiceInfo after the one holding `rInfo` has a group. */
  ghost predicate AtEnd<P>(st: State<P>)
  {
    Started(st) && st.si == |st.infos| - 1 && st.gi == |st.infos[st.ri].groups| - 1
    && forall a :: st.ri < a < |st.infos| ==> st.infos[a].groups == []
  }

  lemma FlattenSnoc<P>(infos: seq<ServiceInfo<P>>, y: ServiceInfo<P>)
    ensures Flatten(infos + [y]) == Flatten(infos) + FlatGroups(y.groups)
  {
    assert (infos + [y])[..|infos|] == infos;
  }

  /** ServiceInfos without groups at the end add no payload. */
  lemma {:induction false} FlattenEmptyTail<P>(infos: seq<ServiceInfo<P>>, r: nat)
    requires r < |infos| && forall a :: r < a < |infos| ==> infos[a].groups == []
    ensures Flatten(infos) == Flatten(infos[..r + 1])
    decreases |infos|
  {
    if |infos| > r + 1 {
      var init := infos[..|infos| - 1];
      assert forall a :: r < a < |init| ==> init[a] == infos[a];
      FlattenEmptyTail(init, r);
      assert init[..r + 1] == infos[..r + 1];
    } else {
      assert infos[..r + 1] == infos;
    }
  }

  /** Replacing the ServiceInfo after which only group-less ones follow. */
  lemma FlattenUpdate<P>(infos: seq<ServiceInfo<P>>, r: nat, y: ServiceInfo<P>)
    requires r < |infos| && forall a :: r < a < |infos| ==> infos[a].groups == []
    ensures Flatten(infos[r := y]) == Flatten(infos[..r]) + FlatGroups(y.groups)
    ensures Flatten(infos) == Flatten(infos[..r]) + FlatGroups(infos[r].groups)
  {
    var t := infos[r := y];
    FlattenEmptyTail(infos, r);
    FlattenEmptyTail(t, r);
    assert t[..r + 1] == infos[..r] + [y];
    assert infos[..r + 1] == infos[..r] + [infos[r]];
    FlattenSnoc(infos[..r], y);
    FlattenSnoc(infos[..r], infos[r]);
  }

  lemma FlatGroupsSnoc<P>(gs: seq<GroupInfo<P>>, g: GroupInfo<P>)
    ensures FlatGroups(gs + [g]) == FlatGroups(gs) + g.list
  {
    assert (gs + [g])[..|gs|] == gs;
  }

  lemma FlatGroupsUpdateLast<P>(gs: seq<GroupInfo<P>>, g: GroupInfo<P>)
    requires |gs| > 0
    ensures FlatGroups(gs[|gs| - 1 := g]) == FlatGroups(gs[..|gs| - 1]) + g.list
  {
    assert gs[|gs| - 1 := g][..|gs| - 1] == gs[..|gs| - 1];
  }

  /** Opening a ServiceInfo adds no payload and leaves `rInfo` at the end. */
  lemma OpenServiceFlat<P>(st: State<P>, sc: string)
    requires AtEnd(st)
    ensures AtEnd(OpenService(st, sc)) && Flatten(OpenService(st, sc).infos) == Flatten(st.infos)
  {
    FlattenSnoc(st.infos, ServiceInfo(sc, []));
  }

  /** Opening a group in the last ServiceInfo adds no payload and moves `rInfo` to it. */
  lemma OpenGroupFlat<P>(st: State<P>, g: string)
    requires |st.infos| > 0 && st.si == |st.infos| - 1
    requires AtEnd(st) || forall a :: 0 <= a < |st.infos| ==> st.infos[a].groups == []
    ensures AtEnd(OpenGroup(st, g)) && Flatten(OpenGroup(st, g).infos) == Flatten(st.infos)
  {
    var info := st.infos[st.si];
    var y := info.(groups := info.groups + [GroupInfo(g, [])]);
    FlattenUpdate(st.infos, st.si, y);
    FlatGroupsSnoc(info.groups, GroupInfo(g, []));
  }

  /** Filing a payload under `rInfo` at the end adds it at the end of the flattened result. */
  lemma AppendFlat<P>(st: State<P>, p: P)
    requires AtEnd(st)
    ensures AtEnd(Append(st, p)) && Flatten(Append(st, p).infos) == Flatten(st.infos) + [p]
  {
    var info := st.infos[st.ri];
    var group := info.groups[st.gi];
    var gs := info.groups[st.gi := group.(list := group.list + [p])];
    FlattenUpdate(st.infos, st.ri, info.(groups := gs));
    FlatGroupsUpdateLast(info.groups, group.(list := group.list + [p]));
    FlatGroupsUpdateLast(info.groups, group);
    assert info.groups[st.gi := group] == info.groups;
  }

  lemma StepFlat<P>(st: State<P>, x: Item<P>)
    requires CanStep(st, x) && (st == Init() || AtEnd(st))
    ensures AtEnd(Step(st, x)) && Flatten(Step(st, x).infos) == Flatten(st.infos) + [x.payload]
  {
    var st1 := if st.prevSc != x.serviceCode then OpenService(st, x.serviceCode) else st;
    if st == Init() {
      assert st1 == OpenService(st, x.serviceCode);
      assert Flatten(st1.infos) == Flatten(st.infos) by {
        FlattenSnoc(st.infos, ServiceInfo(x.serviceCode, []));
      }
      OpenGroupFlat(st1, x.groupId);
    } else {
      if st.prevSc != x.serviceCode {
        OpenServiceFlat(st, x.serviceCode);
      }
      if st1.prevGroup != x.groupId {
        OpenGroupFlat(st1, x.groupId);
      }
    }
    var st2 := if st1.prevGroup != x.groupId then OpenGroup(st1, x.groupId) else st1;
    AppendFlat(st2, x.payload);
  }

  /** The fold of a non-empty list is one step after the fold of all but its last item. */
  lemma GroupOfSnoc<P>(items: seq<Item<P>>)
    requires FirstOk(items) && items != []
    ensures FirstOk(items[..|items| - 1])
    ensures GroupOf(items) == Step(GroupOf(items[..|items| - 1]), items[|items| - 1])
  {
    var init := items[..|items| - 1];
    if init != [] {
      assert init[0] == items[0];
    }
  }

  lemma PayloadsSnoc<P>(items: seq<Item<P>>)
    requires items != []
    ensures Payloads(items) == Payloads(items[..|items| - 1]) + [items[|items| - 1].payload]
  {
  }

  lemma {:induction false} GroupOfAtEnd<P>(items: seq<Item<P>>)
    requires FirstOk(items)
    ensures items != [] ==> AtEnd(GroupOf(items))
    ensures Flatten(GroupOf(items).infos) == Payloads(items)
    decreases |items|
  {
    if items != [] {
      var init := items[..|items| - 1];
      GroupOfSnoc(items);
      GroupOfAtEnd(init);
      StepFlat(GroupOf(init), items[|items| - 1]);
      PayloadsSnoc(items);
    }
  }

  /** Flattening every group's list in order gives the payloads of the items in order:
      each payload is filed exactly once, and in input order, whenever the first item has a
      ServiceCode and a group. */
  lemma GroupFlatten<P>(items: seq<Item<P>>)
    requires FirstOk(items)
    ensures Flatten(Grouped(items)) == Payloads(items)
  {
    GroupOfAtEnd(items);
  }

  /** The result of the fold. */
  function Grouped<P>(items: seq<Item<P>>): seq<ServiceInfo<P>>
    requires FirstOk(items)
  {
    GroupOf(items).infos
  }

  // ---------------------------------------------------------------------------
  // Where ServiceInfos and groups open

  /** Opening a group or filing a payload changes no ServiceCode. */
  lemma StepCodes<P>(st: State<P>, x: Item<P>)
    requires CanStep(st, x)
    ensures ServiceCodes(Step(st, x).infos)
      == ServiceCodes(st.infos) + if st.prevSc != x.serviceCode then [x.serviceCode] else []
  {
    var st1 := if st.prevSc != x.serviceCode then OpenService(st, x.serviceCode) else st;
    var st2 := if st1.prevGroup != x.groupId then OpenGroup(st1, x.groupId) else st1;
    assert ServiceCodes(st1.infos)
      == ServiceCodes(st.infos) + if st.prevSc != x.serviceCode then [x.serviceCode] else [];
    assert ServiceCodes(st2.infos) == ServiceCodes(st1.infos);
  }

  /** A new ServiceInfo opens exactly at the items whose ServiceCode differs from the item
      before (the first item counts as differing from ""), in item order. */
  lemma {:induction false} GroupServiceCodes<P>(items: seq<Item<P>>)
    requires FirstOk(items)
    ensures ServiceCodes(Grouped(items)) == ServiceHeads(items)
    decreases |items|
  {
    if items != [] {
      var init := items[..|items| - 1];
      GroupOfSnoc(items);
      GroupServiceCodes(init);
      StepCodes(GroupOf(init), items[|items| - 1]);
    }
  }

  lemma AllGroupIdsSnoc<P>(infos: seq<ServiceInfo<P>>, y: ServiceInfo<P>)
    ensures AllGroupIds(infos + [y]) == AllGroupIds(infos) + GroupIds(y.groups)
  {
    assert (infos + [y])[..|infos|] == infos;
  }

  /** Replacing a ServiceInfo by one with the same group ids keeps all group ids. */
  lemma {:induction false} AllGroupIdsSameIds<P>(infos: seq<ServiceInfo<P>>, r: nat, y: ServiceInfo<P>)
    requires r < |infos| && GroupIds(y.groups) == GroupIds(infos[r].groups)
    ensures AllGroupIds(infos[r := y]) == AllGroupIds(infos)
    decreases |infos|
  {
    var n := |infos| - 1;
    var t := infos[r := y];
    if r < n {
      AllGroupIdsSameIds(infos[..n], r, y);
      assert t[..n] == infos[..n][r := y];
    } else {
      assert t[..n] == infos[..n];
    }
  }

  /** Opening a group in the last ServiceInfo appends its id to all group ids. */
  lemma OpenGroupIds<P>(st: State<P>, g: string)
    requires |st.infos| > 0 && st.si == |st.infos| - 1
    ensures AllGroupIds(OpenGroup(st, g).infos) == AllGroupIds(st.infos) + [g]
  {
    var n := st.si;
    var info := st.infos[n];
    var t := OpenGroup(st, g).infos;
    assert t == st.infos[..n] + [info.(groups := info.groups + [GroupInfo(g, [])])];
    assert st.infos == st.infos[..n] + [info];
    AllGroupIdsSnoc(st.infos[..n], info.(groups := info.groups + [GroupInfo(g, [])]));
    AllGroupIdsSnoc(st.infos[..n], info);
  }

  /** Filing a payload changes no group id. */
  lemma AppendIds<P>(st: State<P>, p: P)
    requires Started(st)
    ensures AllGroupIds(Append(st, p).infos) == AllGroupIds(st.infos)
  {
    var info := st.infos[st.ri];
    var group := info.groups[st.gi];
    AllGroupIdsSameIds(st.infos, st.ri, info.(groups := info.groups[st.gi := group.(list := group.list + [p])]));
  }

  /** Opening a ServiceInfo adds no group id. */
  lemma OpenServiceIds<P>(st: State<P>, sc: string)
    ensures AllGroupIds(OpenService(st, sc).infos) == AllGroupIds(st.infos)
  {
    AllGroupIdsSnoc(st.infos, ServiceInfo(sc, []));
  }

  lemma StepIds<P>(st: State<P>, x: Item<P>)
    requires CanStep(st, x) && (st == Init() || AtEnd(st))
    ensures AllGroupIds(Step(st, x).infos)
      == AllGroupIds(st.infos) + if st.prevGroup != x.groupId then [x.groupId] else []
  {
    var st1 := if st.prevSc != x.serviceCode then OpenService(st, x.serviceCode) else st;
    if st.prevSc != x.serviceCode {
      OpenServiceIds(st, x.serviceCode);
    }
    assert st1.prevGroup == st.prevGroup && st1.si == |st1.infos| - 1;
    if st1.prevGroup != x.groupId {
      OpenGroupIds(st1, x.groupId);
      AppendIds(OpenGroup(st1, x.groupId), x.payload);
    } else {
      AppendIds(st1, x.payload);
    }
  }

  /** A new group opens exactly at the items whose group differs from the item before, in
      item order: the groups of all ServiceInfos, read one after the other, are those items'
      groups. */
  lemma {:induction false} GroupGroupIds<P>(items: seq<Item<P>>)
    requires FirstOk(items)
    ensures AllGroupIds(Grouped(items)) == GroupHeads(items)
    decreases |items|
  {
    if items != [] {
      var init := items[..|items| - 1];
      GroupOfSnoc(items);
      GroupGroupIds(init);
      GroupOfAtEnd(init);
      StepIds(GroupOf(init), items[|items| - 1]);
    }
  }

  // ---------------------------------------------------------------------------
  // When grouping is exact, and when it is not

  /** Every change of ServiceCode between neighbours comes with a change of group. */
  predicate ServiceChangesChangeGroup<P>(items: seq<Item<P>>)
  {
    forall i :: 0 < i < |items| && items[i].serviceCode != items[i - 1].serviceCode
      ==> items[i].groupId != items[i - 1].groupId
  }

  /** Each payload is the pair of its own item's ServiceCode and group. */
  predicate Tagged(items: seq<Item<(string, string)>>)
  {
    forall i :: 0 <= i < |items| ==> items[i].payload == (items[i].serviceCode, items[i].groupId)
  }

  /** Every payload is filed under the ServiceCode and group it is tagged with. */
  predicate FiledUnderOwnKeys(infos: seq<ServiceInfo<(string, string)>>)
  {
    forall a, b, c :: 0 <= a < |infos| && 0 <= b < |infos[a].groups| && 0 <= c < |infos[a].groups[b].list|
      ==> infos[a].groups[b].list[c] == (infos[a].serviceCode, infos[a].groups[b].groupId)
  }

  /** `scInfo` and `rInfo` both point at the last group, which carries the previous keys. */
  ghost predicate AtCurrentKeys<P>(st: State<P>)
  {
    AtEnd(st) && st.ri == st.si
    && st.infos[st.si].serviceCode == st.prevSc && st.infos[st.ri].groups[st.gi].groupId == st.prevGroup
  }

  lemma OpenServiceExact(st: State<(string, string)>, sc: string)
    requires FiledUnderOwnKeys(st.infos)
    ensures FiledUnderOwnKeys(OpenService(st, sc).infos)
  {
    var t := OpenService(st, sc).infos;
    assert forall a :: 0 <= a < |st.infos| ==> t[a] == st.infos[a];
  }

  lemma OpenGroupExact(st: State<(string, string)>, g: string)
    requires st.si < |st.infos| && FiledUnderOwnKeys(st.infos)
    ensures FiledUnderOwnKeys(OpenGroup(st, g).infos)
  {
    var t := OpenGroup(st, g).infos;
    var info := st.infos[st.si];
    assert forall a :: 0 <= a < |st.infos| && a != st.si ==> t[a] == st.infos[a];
    assert forall b :: 0 <= b < |info.groups| ==> t[st.si].groups[b] == info.groups[b];
  }

  lemma AppendExact(st: State<(string, string)>, p: (string, string))
    requires Started(st) && FiledUnderOwnKeys(st.infos)
    requires p == (st.infos[st.ri].serviceCode, st.infos[st.ri].groups[st.gi].groupId)
    ensures FiledUnderOwnKeys(Append(st, p).infos)
  {
    var t := Append(st, p).infos;
    var info := st.infos[st.ri];
    assert forall a :: 0 <= a < |st.infos| && a != st.ri ==> t[a] == st.infos[a];
    assert forall b :: 0 <= b < |info.groups| && b != st.gi ==> t[st.ri].groups[b] == info.groups[b];
  }

  /** Opening a group in the last ServiceInfo, which carries the previous ServiceCode, puts
      both pointers at the new group with the current keys. */
  lemma OpenGroupAtCurrent(st: State<(string, string)>, g: string)
    requires |st.infos| > 0 && st.si == |st.infos| - 1 && st.infos[st.si].serviceCode == st.prevSc
    requires AtEnd(st) || forall a :: 0 <= a < |st.infos| ==> st.infos[a].groups == []
    requires FiledUnderOwnKeys(st.infos)
    ensures AtCurrentKeys(OpenGroup(st, g)) && FiledUnderOwnKeys(OpenGroup(st, g).infos)
  {
    OpenGroupExact(st, g);
    OpenGroupFlat(st, g);
  }

  /** Filing the payload at the current keys keeps them current. */
  lemma AppendAtCurrent(st: State<(string, string)>, p: (string, string))
    requires AtCurrentKeys(st) && FiledUnderOwnKeys(st.infos) && p == (st.prevSc, st.prevGroup)
    ensures AtCurrentKeys(Append(st, p)) && FiledUnderOwnKeys(Append(st, p).infos)
  {
    AppendExact(st, p);
    AppendFlat(st, p);
  }

  lemma StepExact(st: State<(string, string)>, x: Item<(string, string)>)
    requires CanStep(st, x) && (st == Init() || AtCurrentKeys(st))
    requires FiledUnderOwnKeys(st.infos)
    requires x.payload == (x.serviceCode, x.groupId)
    requires st.prevSc != x.serviceCode ==> st.prevGroup != x.groupId
    ensures AtCurrentKeys(Step(st, x)) && FiledUnderOwnKeys(Step(st, x).infos)
  {
    if st.prevSc != x.serviceCode {
      var st1 := OpenService(st, x.serviceCode);
      OpenServiceExact(st, x.serviceCode);
      if st != Init() {
        OpenServiceFlat(st, x.serviceCode);
      }
      OpenGroupAtCurrent(st1, x.groupId);
      AppendAtCurrent(OpenGroup(st1, x.groupId), x.payload);
    } else if st.prevGroup != x.groupId {
      OpenGroupAtCurrent(st, x.groupId);
      AppendAtCurrent(OpenGroup(st, x.groupId), x.payload);
    } else {
      AppendAtCurrent(st, x.payload);
    }
  }

  lemma {:induction false} GroupOfExact(items: seq<Item<(string, string)>>)
    requires FirstOk(items) && Tagged(items) && ServiceChangesChangeGroup(items)
    ensures items != [] ==> AtCurrentKeys(GroupOf(items))
    ensures FiledUnderOwnKeys(Grouped(items))
    decreases |items|
  {
    if items != [] {
      var n := |items| - 1;
      var init := items[..n];
      GroupOfSnoc(items);
      assert forall i :: 0 <= i < n ==> init[i] == items[i];
      GroupOfExact(init);
      StepExact(GroupOf(init), items[n]);
    }
  }

  /** When every change of ServiceCode comes with a change of group, grouping is exact:
      tag each payload with its own item's keys, and every payload ends up under the
      ServiceInfo and group of those keys. */
  lemma GroupExact(items: seq<Item<(string, string)>>)
    requires FirstOk(items) && Tagged(items) && ServiceChangesChangeGroup(items)
    ensures FiledUnderOwnKeys(Grouped(items))
  {
    GroupOfExact(items);
  }

  /** Without that condition it is not: when the ServiceCode changes and the group does not,
      the fold opens a ServiceInfo for the new code but files the payload under the group
      of the previous ServiceInfo, which `rInfo` still points to. */
  lemma SameGroupAcrossServices()
    ensures Grouped([Item("A", "g", 1), Item("B", "g", 2)])
      == [ServiceInfo("A", [GroupInfo("g", [1, 2])]), ServiceInfo("B", [])]
  {
    var items := [Item("A", "g", 1), Item("B", "g", 2)];
    assert items[..1] == [Item("A", "g", 1)];
    assert items[..1][..0] == [];
    var s0: State<int> := Init();
    var a1 := OpenService(s0, "A");
    assert a1 == State([ServiceInfo("A", [])], "A", "", 0, 0, 0);
    var ga: seq<GroupInfo<int>> := [];
    assert ga + [GroupInfo("g", [])] == [GroupInfo("g", [])];
    assert [ServiceInfo("A", ga)][0 := ServiceInfo("A", [GroupInfo("g", [])])] == [ServiceInfo("A", [GroupInfo("g", [])])];
    var a2 := OpenGroup(a1, "g");
    assert a2 == State([ServiceInfo("A", [GroupInfo("g", [])])], "A", "g", 0, 0, 0);
    var l0: seq<int> := [];
    assert l0 + [1] == [1];
    assert [GroupInfo("g", l0)][0 := GroupInfo("g", [1])] == [GroupInfo("g", [1])];
    assert [ServiceInfo("A", [GroupInfo("g", l0)])][0 := ServiceInfo("A", [GroupInfo("g", [1])])]
      == [ServiceInfo("A", [GroupInfo("g", [1])])];
    var s1 := Append(a2, 1);
    assert s1 == State([ServiceInfo("A", [GroupInfo("g", [1])])], "A", "g", 0, 0, 0);
    assert Step(s0, items[0]) == s1;
    assert GroupOf(items[..1]) == s1;
    var b1 := OpenService(s1, "B");
    assert b1 == State([ServiceInfo("A", [GroupInfo("g", [1])]), ServiceInfo("B", [])], "B", "g", 1, 0, 0);
    assert [1] + [2] == [1, 2];
    assert [GroupInfo("g", [1])][0 := GroupInfo("g", [1, 2])] == [GroupInfo("g", [1, 2])];
    assert [ServiceInfo("A", [GroupInfo("g", [1])]), ServiceInfo("B", [])][0 := ServiceInfo("A", [GroupInfo("g", [1, 2])])]
      == [ServiceInfo("A", [GroupInfo("g", [1, 2])]), ServiceInfo("B", [])];
    var s2 := Append(b1, 2);
    assert s2.infos == [ServiceInfo("A", [GroupInfo("g", [1, 2])]), ServiceInfo("B", [])];
    assert Step(s1, items[1]) == s2;
    GroupOfSnoc(items);
  }
}
