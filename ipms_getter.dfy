/** MergeIPMSRecords of the library version (`ipms/getter.go`): sort the records, cut them
    into runs of contiguous blocks with the same keys, Sum each run, and group the merged
    records by ServiceCode and GLBID. */
module IpmsGetter {
  import opened IPv4
  import opened Blocks
  import opened IpmsRecord
  import opened Grouping

  // ---------------------------------------------------------------------------
  // What the records must satisfy

  /** Every record carries a valid block. */
  ghost predicate AllValid(s: seq<Record>)
  {
    forall r :: r in s ==> ValidBlock(r.block)
  }

  /** A record holding the whole address space (/0) shares its ServiceCode, GLBID and NetCode
      with no other record. The next start of a /0 block is its own start, so a record with
      the same keys and start would join its run and the run would not be a chain; Go panics on some such runs
      (two /0 records make Sum ask newParent for a /-1 parent) and merges others. */
  ghost predicate WholeBlocksAlone(s: seq<Record>)
  {
    forall x, y :: x in multiset(s) && y in multiset(s) && x.block.prefix == 0 && SameKeys(x, y)
      ==> x == y && multiset(s)[x] == 1
  }

  lemma TwoCopies(s: seq<Record>, j: nat)
    requires j + 1 < |s| && s[j] == s[j + 1]
    ensures multiset(s)[s[j]] >= 2
  {
    var t := s[..j] + [s[j], s[j + 1]] + s[j + 2..];
    assert t == s;
  }

  // ---------------------------------------------------------------------------
  // Cutting the sorted records into runs

  /** The run loop from position `i` on, with `run` the records in `set` and `acc` those in
      resultSet: a record that extends the run is added to it; any other record closes the
      run, which is summed and appended to resultSet, and starts a new one. When the records
      are used up the last run is summed and appended too. */
  function CollectLoop(s: seq<Record>, i: nat, run: seq<Record>, acc: seq<Record>): seq<Record>
    decreases |s| - i
  {
    if i >= |s| then acc + SumSpec(run)
    else if IsCont(run, s[i]) then CollectLoop(s, i + 1, run + [s[i]], acc)
    else CollectLoop(s, i + 1, [s[i]], acc + SumSpec(run))
  }

  /** resultSet after the run loop and the last set (ipms/getter.go lines 151-168). */
  function RunsSummed(s: seq<Record>): seq<Record>
  {
    CollectLoop(s, 0, [], [])
  }

  /** The run being built ends with the record last read, is a chain and has one
      ServiceCode, GLBID and NetCode. */
  ghost predicate RunInv(s: seq<Record>, i: nat, run: seq<Record>)
  {
    i <= |s| && (i == 0 ==> run == []) && (i > 0 ==> run != [] && run[|run| - 1] == s[i - 1])
    && ChainOf(run) && Uniform(run)
  }

  /** A record on its own starts a run. */
  lemma RunStart(s: seq<Record>, i: nat)
    requires AllValid(s) && i < |s|
    ensures RunInv(s, i + 1, [s[i]])
  {
    assert s[i] in s;
    assert BlocksOf([s[i]]) == [s[i].block];
  }

  /** In a sorted run of the same keys, a record that IsCont accepts starts exactly where the
      last block ends: the uint32 sum cannot have wrapped, because the only block reaching
      2^32 after a block starting at 0 would be a /0 block, alone with its keys. */
  lemma EndMeetsNext(s: seq<Record>, i: nat)
    requires Sorted(s) && AllValid(s) && WholeBlocksAlone(s) && 0 < i < |s|
    requires SameKeys(s[i - 1], s[i]) && NextStartIP(s[i - 1]) == s[i].block.start
    ensures s[i - 1].block.prefix >= 1 && End(s[i - 1].block) == s[i].block.start
  {
    var l, r := s[i - 1], s[i];
    assert l in s && r in s;
    assert l in multiset(s) && r in multiset(s);
    if l.block.prefix == 0 {
      if l == r {
        TwoCopies(s, i - 1);
      }
      assert false;
    }
    ValidBlockEnd(l.block);
  }

  /** A record that IsCont accepts extends the run. */
  lemma RunExtend(s: seq<Record>, i: nat, run: seq<Record>)
    requires Sorted(s) && AllValid(s) && WholeBlocksAlone(s) && RunInv(s, i, run)
    requires i < |s| && IsCont(run, s[i])
    ensures RunInv(s, i + 1, run + [s[i]])
  {
    if run == [] {
      RunStart(s, i);
      assert run + [s[i]] == [s[i]];
    } else {
      var r := s[i];
      assert SameKeys(run[|run| - 1], run[0]);
      EndMeetsNext(s, i);
      assert r in s;
      BlocksOfSnoc(run, r);
      assert Last(BlocksOf(run)) == End(run[|run| - 1].block);
      ChainSnoc(BlocksOf(run), r.block);
      var t := run + [r];
      assert forall j :: 0 <= j < |run| ==> t[j] == run[j];
    }
  }

  /** The run loop of MergeIPMSRecords and the last set, over sorted records, with `set` the
      contSet being built. */
  method CollectRuns(recs: seq<Record>) returns (resultSet: seq<Record>)
    requires Sorted(recs) && AllValid(recs) && WholeBlocksAlone(recs)
    ensures resultSet == RunsSummed(recs)
  {
    var contSet := new ContSet();
    resultSet := [];
    var i := 0;
    while i < |recs|
      invariant 0 <= i <= |recs|
      invariant RunInv(recs, i, contSet.elems)
      invariant CollectLoop(recs, i, contSet.elems, resultSet) == RunsSummed(recs)
    {
      var rec := recs[i];
      ghost var run := contSet.elems;
      if IsCont(contSet.elems, rec) {
        RunExtend(recs, i, run);
        contSet.Add(rec);
        assert CollectLoop(recs, i + 1, contSet.elems, resultSet) == RunsSummed(recs);
      } else {
        contSet.Sum();
        resultSet := resultSet + contSet.elems;
        contSet.Clear();
        contSet.Add(rec);
        RunStart(recs, i);
        assert contSet.elems == [rec];
        assert CollectLoop(recs, i + 1, contSet.elems, resultSet) == RunsSummed(recs);
      }
      i := i + 1;
    }
    contSet.Sum();
    resultSet := resultSet + contSet.elems;
  }

  // ---------------------------------------------------------------------------
  // What the runs cover

  lemma CoveredByAppend(x: seq<Record>, y: seq<Record>, k: Record, a: nat)
    ensures CoveredBy(x + y, k, a) <==> CoveredBy(x, k, a) || CoveredBy(y, k, a)
  {
    var t := x + y;
    if CoveredBy(x, k, a) {
      var i :| 0 <= i < |x| && SameKeys(x[i], k) && InBlock(x[i].block, a);
      assert t[i] == x[i];
    }
    if CoveredBy(t, k, a) {
      var i :| 0 <= i < |t| && SameKeys(t[i], k) && InBlock(t[i].block, a);
      if i >= |x| {
        assert y[i - |x|] == t[i];
      }
    }
    if CoveredBy(y, k, a) {
      var i :| 0 <= i < |y| && SameKeys(y[i], k) && InBlock(y[i].block, a);
      assert t[|x| + i] == y[i];
      assert 0 <= |x| + i < |t| && SameKeys(t[|x| + i], k) && InBlock(t[|x| + i].block, a);
    }
  }

  lemma CoveredBySuffix(s: seq<Record>, i: nat, k: Record, a: nat)
    requires i < |s|
    ensures CoveredBy(s[i..], k, a) <==> CoveredBy([s[i]], k, a) || CoveredBy(s[i + 1..], k, a)
  {
    assert s[i..] == [s[i]] + s[i + 1..];
    CoveredByAppend([s[i]], s[i + 1..], k, a);
  }

  /** For a run of one set of keys, covering an address under some keys is having those
      keys and covering it with a block. */
  lemma UniformCoveredBy(s: seq<Record>, k: Record, a: nat)
    requires |s| > 0 && Uniform(s)
    ensures CoveredBy(s, k, a) <==> SameKeys(s[0], k) && Covered(BlocksOf(s), a)
  {
    if SameKeys(s[0], k) && Covered(BlocksOf(s), a) {
      var i :| 0 <= i < |s| && InBlock(BlocksOf(s)[i], a);
      assert SameKeys(s[i], s[0]);
    }
    if CoveredBy(s, k, a) {
      var i :| 0 <= i < |s| && SameKeys(s[i], k) && InBlock(s[i].block, a);
      assert SameKeys(s[i], s[0]);
      assert InBlock(BlocksOf(s)[i], a);
    }
  }

  /** Summing a run covers the same addresses under the same keys. */
  lemma SumCoversKeys(run: seq<Record>, k: Record, a: nat)
    requires ChainOf(run) && Uniform(run)
    ensures CoveredBy(SumSpec(run), k, a) <==> CoveredBy(run, k, a)
  {
    if run != [] {
      SumUniform(run);
      SumCovers(run, a);
      UniformCoveredBy(run, k, a);
      UniformCoveredBy(SumSpec(run), k, a);
    }
  }

  /** Taking the next record into the run moves it from the rest to the run. */
  lemma ExtendCovers(s: seq<Record>, i: nat, run: seq<Record>, k: Record, a: nat)
    requires i < |s|
    ensures CoveredBy(run + [s[i]], k, a) || CoveredBy(s[i + 1..], k, a)
      <==> CoveredBy(run, k, a) || CoveredBy(s[i..], k, a)
  {
    CoveredBySuffix(s, i, k, a);
    CoveredByAppend(run, [s[i]], k, a);
  }

  /** Closing the run moves its sum to the result and the next record to a new run. */
  lemma CloseCovers(s: seq<Record>, i: nat, run: seq<Record>, acc: seq<Record>, k: Record, a: nat)
    requires i < |s| && ChainOf(run) && Uniform(run)
    ensures CoveredBy(acc + SumSpec(run), k, a) || CoveredBy([s[i]], k, a) || CoveredBy(s[i + 1..], k, a)
      <==> CoveredBy(acc, k, a) || CoveredBy(run, k, a) || CoveredBy(s[i..], k, a)
  {
    CoveredBySuffix(s, i, k, a);
    CoveredByAppend(acc, SumSpec(run), k, a);
    SumCoversKeys(run, k, a);
  }

  /** Every run the loop builds from position `i` on, the current one included, is a chain
      of one ServiceCode, GLBID and NetCode. */
  ghost predicate RunsChained(s: seq<Record>, i: nat, run: seq<Record>)
    decreases |s| - i
  {
    ChainOf(run) && Uniform(run)
    && (i < |s| ==>
          if IsCont(run, s[i]) then RunsChained(s, i + 1, run + [s[i]])
          else RunsChained(s, i + 1, [s[i]]))
  }

  /** On sorted records, every run IsCont builds is a chain: Sum's precondition holds at
      every call of the loop. */
  lemma {:induction false} SortedRunsChained(s: seq<Record>, i: nat, run: seq<Record>)
    requires Sorted(s) && AllValid(s) && WholeBlocksAlone(s) && RunInv(s, i, run)
    ensures RunsChained(s, i, run)
    decreases |s| - i
  {
    if i < |s| {
      if IsCont(run, s[i]) {
        RunExtend(s, i, run);
        SortedRunsChained(s, i + 1, run + [s[i]]);
      } else {
        RunStart(s, i);
        SortedRunsChained(s, i + 1, [s[i]]);
      }
    }
  }

  lemma {:induction false} CollectLoopCovers(s: seq<Record>, i: nat, run: seq<Record>, acc: seq<Record>, k: Record, a: nat)
    requires i <= |s| && RunsChained(s, i, run)
    ensures CoveredBy(CollectLoop(s, i, run, acc), k, a)
      <==> CoveredBy(acc, k, a) || CoveredBy(run, k, a) || CoveredBy(s[i..], k, a)
    decreases |s| - i
  {
    if i == |s| {
      SumCoversKeys(run, k, a);
      CoveredByAppend(acc, SumSpec(run), k, a);
      assert s[i..] == [];
    } else if IsCont(run, s[i]) {
      assert CollectLoop(s, i, run, acc) == CollectLoop(s, i + 1, run + [s[i]], acc);
      CollectLoopCovers(s, i + 1, run + [s[i]], acc, k, a);
      ExtendCovers(s, i, run, k, a);
    } else {
      assert CollectLoop(s, i, run, acc) == CollectLoop(s, i + 1, [s[i]], acc + SumSpec(run));
      CollectLoopCovers(s, i + 1, [s[i]], acc + SumSpec(run), k, a);
      CloseCovers(s, i, run, acc, k, a);
    }
  }

  /** Cutting sorted records into runs and summing each covers, under every ServiceCode,
      GLBID and NetCode, exactly the addresses the records cover. */
  lemma RunsSummedCovers(s: seq<Record>, k: Record, a: nat)
    requires Sorted(s) && AllValid(s) && WholeBlocksAlone(s)
    ensures CoveredBy(RunsSummed(s), k, a) <==> CoveredBy(s, k, a)
  {
    SortedRunsChained(s, 0, []);
    CollectLoopCovers(s, 0, [], [], k, a);
    assert s[0..] == s;
  }

  lemma {:induction false} CollectLoopShorter(s: seq<Record>, i: nat, run: seq<Record>, acc: seq<Record>)
    requires i <= |s|
    ensures |CollectLoop(s, i, run, acc)| <= |acc| + |run| + (|s| - i)
    decreases |s| - i
  {
    if i < |s| {
      if IsCont(run, s[i]) {
        CollectLoopShorter(s, i + 1, run + [s[i]], acc);
      } else {
        CollectLoopShorter(s, i + 1, [s[i]], acc + SumSpec(run));
      }
    }
  }

  /** Merging never produces more records than it is given. */
  lemma RunsSummedShorter(s: seq<Record>)
    ensures |RunsSummed(s)| <= |s|
  {
    CollectLoopShorter(s, 0, [], []);
  }

  lemma {:induction false} CollectLoopHead(s: seq<Record>, i: nat, run: seq<Record>, acc: seq<Record>)
    requires i <= |s| && Uniform(run) && (run == [] ==> i < |s| || acc != [])
    ensures |CollectLoop(s, i, run, acc)| > 0
    ensures acc != [] ==> CollectLoop(s, i, run, acc)[0] == acc[0]
    ensures acc == [] && run != [] ==> SameKeys(CollectLoop(s, i, run, acc)[0], run[0])
    ensures acc == [] && run == [] ==> SameKeys(CollectLoop(s, i, run, acc)[0], s[i])
    decreases |s| - i
  {
    if i == |s| {
      if run != [] {
        SumUniform(run);
      }
    } else if IsCont(run, s[i]) {
      var t := run + [s[i]];
      assert forall j :: 0 <= j < |run| ==> t[j] == run[j];
      CollectLoopHead(s, i + 1, t, acc);
    } else {
      SumUniform(run);
      CollectLoopHead(s, i + 1, [s[i]], acc + SumSpec(run));
    }
  }

  /** The first merged record has the keys of the first record. */
  lemma RunsSummedHead(s: seq<Record>)
    requires |s| > 0
    ensures |RunsSummed(s)| > 0 && SameKeys(RunsSummed(s)[0], s[0])
  {
    CollectLoopHead(s, 0, [], []);
  }

  // ---------------------------------------------------------------------------
  // MergeIPMSRecords

  /** NetMaskInfo: the CIDR text and the NetCode of a merged record. */
  datatype NetMaskInfo = NetMaskInfo(netMaskAddress: Cidr, netCode: string)

  /** What the grouping loop reads of a merged record. */
  function ItemOf(r: Record): Item<NetMaskInfo>
  {
    Item(r.serviceCode, r.glbId, NetMaskInfo(r.cidr, r.netCode))
  }

  function Items(s: seq<Record>): (items: seq<Item<NetMaskInfo>>)
    ensures |items| == |s| && forall i :: 0 <= i < |s| ==> items[i] == ItemOf(s[i])
  {
    seq(|s|, i requires 0 <= i < |s| => ItemOf(s[i]))
  }

  /** The records the grouping loop can take without a nil pointer: the record that sorts
      first has a ServiceCode and a GLBID. */
  predicate FirstSortedHasKeys(s: seq<Record>)
  {
    var sorted := SortRecords(s);
    |sorted| == 0 || (sorted[0].serviceCode != "" && sorted[0].glbId != "")
  }

  /** The merged records of sorted records whose first record has a ServiceCode and a
      GLBID can be grouped. */
  lemma MergedFirstOk(s: seq<Record>)
    requires Sorted(s) && (|s| > 0 ==> s[0].serviceCode != "" && s[0].glbId != "")
    ensures FirstOk(Items(RunsSummed(s)))
  {
    if |s| > 0 {
      RunsSummedHead(s);
    }
  }

  /** Sorting keeps the records, so it keeps what the run loop asks of them. */
  lemma SortKeepsRequirements(s: seq<Record>)
    ensures AllValid(s) ==> AllValid(SortRecords(s))
    ensures WholeBlocksAlone(s) ==> WholeBlocksAlone(SortRecords(s))
  {
    var t := SortRecords(s);
    assert forall r :: r in t <==> r in s by {
      forall r
        ensures r in t <==> r in s
      {
        assert r in t <==> r in multiset(t);
        assert r in s <==> r in multiset(s);
      }
    }
  }

  /** MergeIPMSRecords: sorts the caller's records in place, merges every run, the last one
      included, and groups the merged records by ServiceCode and GLBID. */
  method MergeIPMSRecords(recs: array<Record>) returns (infos: seq<ServiceInfo<NetMaskInfo>>)
    requires AllValid(recs[..]) && WholeBlocksAlone(recs[..]) && FirstSortedHasKeys(recs[..])
    modifies recs
    ensures recs[..] == SortRecords(old(recs[..]))
    ensures FirstOk(Items(RunsSummed(recs[..])))
    ensures infos == Grouped(Items(RunsSummed(recs[..])))
  {
    ghost var before := recs[..];
    SortInPlace(recs);
    var sorted := recs[..];
    SortKeepsRequirements(before);
    var resultSet := CollectRuns(sorted);
    MergedFirstOk(sorted);
    infos := Group(Items(resultSet));
  }

  /** The merged, grouped result lists the NetMaskInfos of the merged records, in order. */
  lemma MergedPayloads(s: seq<Record>)
    requires FirstOk(Items(RunsSummed(s)))
    ensures Flatten(Grouped(Items(RunsSummed(s))))
      == seq(|RunsSummed(s)|, i requires 0 <= i < |RunsSummed(s)| =>
             NetMaskInfo(RunsSummed(s)[i].cidr, RunsSummed(s)[i].netCode))
  {
    GroupFlatten(Items(RunsSummed(s)));
  }
}
