/** The record engine of the library version, `ipms/ipms-record.go`. The older copy in
    `ipms-importer/ipms-record.go` is the same code, with lower-case names (`newRecord`,
    `NextStartIP`, `CanStart`, `ipStart`, `ipStartInt`, `prefix`, `officeCode`), for the
    members it has, and this module models both there. It lacks `ipmsSort2`,
    `simpleMaskLength` and `NewRecordFromCIDR`, so `LessByStartOrder`, `NewRecordFromCIDR`
    and `IPv4.SimpleMaskLength` model the library only. */
module IpmsRecord {
  import opened Wrappers
  import opened Text
  import opened IPv4
  import opened Blocks

  /** The CIDR text a record carries (`netMaskAddress`), abstracted to the address and the
      prefix it was written with. */
  datatype Cidr = Cidr(addr: nat, prefix: int)

  /** IpmsRecord: the keys it is sorted and grouped by, the office it came from, its CIDR
      text, and its block (IPStartInt and Prefix). */
  datatype Record = Record(
    serviceCode: string,
    glbId: string,
    netCode: string,
    officeCode: string,
    cidr: Cidr,
    block: Block)

  // ---------------------------------------------------------------------------
  // Orders: ipmsSort.Less and ipmsSort2.Less

  /** ipmsSort.Less: lexicographic on ServiceCode, GLBID, NetCode, then IPStartInt. */
  predicate Less(a: Record, b: Record)
  {
    if a.serviceCode != b.serviceCode then StrLess(a.serviceCode, b.serviceCode)
    else if a.glbId != b.glbId then StrLess(a.glbId, b.glbId)
    else if a.netCode != b.netCode then StrLess(a.netCode, b.netCode)
    else a.block.start < b.block.start
  }

  /** ipmsSort2.Less: by IPStartInt alone. */
  predicate LessByStart(a: Record, b: Record)
  {
    a.block.start < b.block.start
  }

  /** The tuple Less compares. */
  function SortKey(r: Record): (string, string, string, nat)
  {
    (r.serviceCode, r.glbId, r.netCode, r.block.start)
  }

  lemma LessIrreflexive(a: Record)
    ensures !Less(a, a)
  {
  }

  lemma LessTransitive(a: Record, b: Record, c: Record)
    requires Less(a, b) && Less(b, c)
    ensures Less(a, c)
  {
    if a.serviceCode != b.serviceCode || b.serviceCode != c.serviceCode {
      if a.serviceCode != b.serviceCode && b.serviceCode != c.serviceCode {
        StrLessTransitive(a.serviceCode, b.serviceCode, c.serviceCode);
        if a.serviceCode == c.serviceCode {
          StrLessIrreflexive(a.serviceCode);
          StrLessTransitive(a.serviceCode, b.serviceCode, a.serviceCode);
        }
      }
    } else if a.glbId != b.glbId || b.glbId != c.glbId {
      if a.glbId != b.glbId && b.glbId != c.glbId {
        StrLessTransitive(a.glbId, b.glbId, c.glbId);
        if a.glbId == c.glbId {
          StrLessIrreflexive(a.glbId);
        }
      }
    } else if a.netCode != b.netCode && b.netCode != c.netCode {
      StrLessTransitive(a.netCode, b.netCode, c.netCode);
      if a.netCode == c.netCode {
        StrLessIrreflexive(a.netCode);
      }
    }
  }

  /** Records with different sort keys are ordered one way or the other; records with the
      same sort key are ordered neither way. */
  lemma LessTotal(a: Record, b: Record)
    ensures SortKey(a) != SortKey(b) <==> Less(a, b) || Less(b, a)
  {
    StrLessTotal(a.serviceCode, b.serviceCode);
    StrLessTotal(a.glbId, b.glbId);
    StrLessTotal(a.netCode, b.netCode);
    if SortKey(a) != SortKey(b) {
      assert Less(a, b) || Less(b, a);
    } else {
      StrLessIrreflexive(a.serviceCode);
    }
  }

  lemma LessAsym(a: Record, b: Record)
    requires Less(a, b)
    ensures !Less(b, a)
  {
    if Less(b, a) {
      LessTransitive(a, b, a);
      LessIrreflexive(a);
    }
  }

  /** Not being less is transitive too, which makes Less a strict weak order. */
  lemma NotLessTransitive(a: Record, b: Record, c: Record)
    requires !Less(a, b) && !Less(b, c)
    ensures !Less(a, c)
  {
    LessTotal(a, b);
    LessTotal(b, c);
    LessTotal(a, c);
    if Less(a, c) && Less(c, b) {
      LessTransitive(a, c, b);
    }
  }

  lemma LessByStartOrder(a: Record, b: Record, c: Record)
    ensures !LessByStart(a, a)
    ensures LessByStart(a, b) && LessByStart(b, c) ==> LessByStart(a, c)
  {
  }

  /** sort.Sort(ipmsSort(recs)) leaves no record before one that is Less than it. */
  predicate Sorted(s: seq<Record>)
  {
    forall i, j :: 0 <= i < j < |s| ==> !Less(s[j], s[i])
  }

  /** Inserts `x` after the records it is not Less than. */
  function Insert(x: Record, s: seq<Record>): (r: seq<Record>)
    ensures multiset(r) == multiset(s) + multiset{x}
    decreases |s|
  {
    if s == [] then [x]
    else if !Less(x, s[0]) then
      assert s == [s[0]] + s[1..];
      [s[0]] + Insert(x, s[1..])
    else [x] + s
  }

  lemma SortedCons(h: Record, s: seq<Record>)
    requires Sorted(s) && forall k :: 0 <= k < |s| ==> !Less(s[k], h)
    ensures Sorted([h] + s)
  {
    var t := [h] + s;
    forall i, j | 0 <= i < j < |t|
      ensures !Less(t[j], t[i])
    {
      assert t[j] == s[j - 1];
      if i > 0 {
        assert t[i] == s[i - 1];
      }
    }
  }

  lemma SortedTail(s: seq<Record>)
    requires Sorted(s) && |s| > 0
    ensures Sorted(s[1..])
  {
    var t := s[1..];
    assert forall i :: 0 <= i < |t| ==> t[i] == s[i + 1];
  }

  /** Insertion keeps a sorted run sorted. */
  lemma {:induction false} InsertSorted(x: Record, s: seq<Record>)
    requires Sorted(s)
    ensures Sorted(Insert(x, s))
    decreases |s|
  {
    if s == [] {
    } else if !Less(x, s[0]) {
      SortedTail(s);
      InsertSorted(x, s[1..]);
      var rest := Insert(x, s[1..]);
      forall k | 0 <= k < |rest|
        ensures !Less(rest[k], s[0])
      {
        assert rest[k] in multiset(rest);
        if rest[k] != x {
          assert rest[k] in multiset(s[1..]);
          var j :| 0 <= j < |s[1..]| && s[1..][j] == rest[k];
          assert s[j + 1] == rest[k];
        }
      }
      SortedCons(s[0], rest);
    } else {
      forall j | 0 <= j < |s|
        ensures !Less(s[j], x)
      {
        if Less(s[j], x) {
          LessTransitive(s[j], x, s[0]);
          if j == 0 {
            LessIrreflexive(s[0]);
          }
        }
      }
      SortedCons(x, s);
    }
  }

  /** A stable insertion sort: the records in Less order, a permutation of the input. */
  function SortRecords(s: seq<Record>): (r: seq<Record>)
    ensures Sorted(r) && multiset(r) == multiset(s)
    decreases |s|
  {
    if s == [] then []
    else
      assert s == [s[0]] + s[1..];
      var rest := SortRecords(s[1..]);
      InsertSorted(s[0], rest);
      Insert(s[0], rest)
  }

  /** ipmsSort.Swap: exchanges two positions of the slice being sorted and nothing else. */
  method Swap(a: array<Record>, i: int, j: int)
    requires 0 <= i < a.Length && 0 <= j < a.Length
    modifies a
    ensures a[..] == old(a[..])[i := old(a[j])][j := old(a[i])]
  {
    a[i], a[j] := a[j], a[i];
  }

  /** Swapping two positions keeps the same records. */
  lemma SwapPermutes(s: seq<Record>, i: nat, j: nat)
    requires i < |s| && j < |s|
    ensures multiset(s[i := s[j]][j := s[i]]) == multiset(s)
  {
  }

  /** sort.Sort(ipmsSort(recs)): the slice is rearranged in place into the Less order. The
      library's algorithm is not modelled; the result is the sorted permutation, stably. */
  method SortInPlace(a: array<Record>)
    modifies a
    ensures a[..] == SortRecords(old(a[..]))
  {
    var s := SortRecords(a[..]);
    assert |s| == |multiset(s)| == |multiset(a[..])| == a.Length;
    forall k | 0 <= k < a.Length {
      a[k] := s[k];
    }
    assert a[..] == s;
  }

  // ---------------------------------------------------------------------------
  // Building records

  /** NewRecord: Atoi's error when the prefix text is not a decimal integer; otherwise the
      record of the keys with the block of that prefix holding the address. The Go code uses
      the parsed CIDR before it looks at ParseCIDR's error, so text that is not an IPv4
      address, or a prefix outside 0..32, dereferences a nil IPNet there: those inputs are
      excluded by the precondition instead of being modelled as an error. */
  function NewRecord(
    serviceCode: string, glbId: string, netCode: string, officeCode: string,
    ipStart: string, prefix: string): (r: Result<Record, NumError>)
    requires Atoi(prefix).Success? ==> ParseIPv4(ipStart).Some? && 0 <= Atoi(prefix).value <= 32
    ensures r.Failure? <==> Atoi(prefix).Failure?
    ensures r.Failure? ==> r.error == NumError(prefix)
    ensures r.Success? ==>
      var rec, a, p := r.value, ParseIPv4(ipStart).value, Atoi(prefix).value;
      && rec.serviceCode == serviceCode && rec.glbId == glbId && rec.netCode == netCode
      && rec.officeCode == officeCode && rec.cidr == Cidr(a, p)
      && rec.block.prefix == p && ValidBlock(rec.block) && InBlock(rec.block, a)
  {
    match Atoi(prefix)
    case Failure(e) => Failure(e)
    case Success(p) =>
      var a := ParseIPv4(ipStart).value;
      Success(Record(serviceCode, glbId, netCode, officeCode, Cidr(a, p), Block(Mask(a, p), p)))
  }

  lemma SameMultipleBelow(p: nat, q: nat, m: int, a: nat)
    requires m > 0 && p % m == 0 && q % m == 0 && p <= a < p + m && q <= a < q + m
    ensures p == q
  {
    assert p == (p / m) * m && q == (q / m) * m;
    DivModUnique(a, m, p / m, a - p);
    DivModUnique(a, m, q / m, a - q);
  }

  /** The block a record gets is the only aligned block of its prefix that holds the
      address, so the record does not depend on which address of the block was written. */
  lemma NewRecordBlockUnique(b: Block, c: Block, a: nat)
    requires ValidBlock(b) && ValidBlock(c) && b.prefix == c.prefix
    requires InBlock(b, a) && InBlock(c, a)
    ensures b == c
  {
    SameMultipleBelow(b.start, c.start, BlockSize(b.prefix), a);
  }

  /** A net.IPNet as its address bytes and its mask bytes. */
  datatype IPNet = IPNet(ip: seq<Byte>, mask: seq<Byte>)

  /** NewRecordFromCIDR on a 4-byte address with a 4-byte mask: the prefix is
      simpleMaskLength of the mask (-1 for a mask that is not ones followed by zeros), and
      the start is the four address bytes as they are, not masked. The CIDR text is the
      address and that prefix; for prefix -1 it stands for the text with the mask in hex. */
  method NewRecordFromCIDR(
    serviceCode: string, glbId: string, netCode: string, officeCode: string, cidr: IPNet)
    returns (rec: Record)
    requires |cidr.ip| == 4 && |cidr.mask| == 4
    ensures rec.serviceCode == serviceCode && rec.glbId == glbId && rec.netCode == netCode
    ensures rec.officeCode == officeCode
    ensures rec.block.start == Uint32(cidr.ip) && rec.cidr == Cidr(rec.block.start, rec.block.prefix)
    ensures rec.block.prefix >= 0 ==>
      rec.block.prefix <= 8 * |cidr.mask| && cidr.mask == PrefixMask(rec.block.prefix, |cidr.mask|)
    ensures rec.block.prefix < 0 ==> (rec.block.prefix == -1
      && forall k: nat :: k <= 8 * |cidr.mask| ==> cidr.mask != PrefixMask(k, |cidr.mask|))
  {
    var prefix := SimpleMaskLength(cidr.mask);
    var start := Uint32(cidr.ip);
    rec := Record(serviceCode, glbId, netCode, officeCode, Cidr(start, prefix), Block(start, prefix));
  }

  /** The records newParent accepts: one shorter prefix is still 0..32. */
  predicate ParentDefined(r: Record)
  {
    1 <= r.block.prefix <= 33 && r.block.start < AddrSpace
  }

  /** newParent: the keys and office of `first`, prefix one shorter, and the start of
      `first` masked to that prefix; `second` only appears in a log line. The prefix must
      stay a valid IPv4 prefix, or ParseCIDR fails and the nil IPNet is dereferenced. */
  function NewParent(first: Record, second: Record): (r: Record)
    requires ParentDefined(first)
    ensures r.serviceCode == first.serviceCode && r.glbId == first.glbId
    ensures r.netCode == first.netCode && r.officeCode == first.officeCode
    ensures r.block.prefix == first.block.prefix - 1
    ensures ValidBlock(r.block) && InBlock(r.block, first.block.start)
    ensures r.cidr == Cidr(first.block.start, first.block.prefix - 1)
  {
    var p := first.block.prefix - 1;
    Record(first.serviceCode, first.glbId, first.netCode, first.officeCode,
      Cidr(first.block.start, p), Block(Mask(first.block.start, p), p))
  }

  /** nextStartIP of a record: its start plus its block size in 32 bits. */
  function NextStartIP(r: Record): (n: nat)
    ensures n < AddrSpace
    ensures 1 <= r.block.prefix <= 32 ==> n == (r.block.start + BlockSize(r.block.prefix)) % AddrSpace
    ensures r.block.prefix == 0 ==> n == r.block.start % AddrSpace
  {
    NextStart(r.block.start, r.block.prefix)
  }

  /** canStart of a record. */
  function CanStartRecord(r: Record): bool
  {
    CanStart(r.block.start, r.block.prefix)
  }

  /** canStart holds of a valid block exactly when it is the lower half of its parent,
      which is Sum's parity test; a /0 block has no parent. */
  lemma CanStartIsLowerHalf(r: Record)
    requires ValidBlock(r.block)
    ensures r.block.prefix == 0 ==> !CanStartRecord(r)
    ensures 1 <= r.block.prefix ==>
      (CanStartRecord(r) <==> r.block.start % BlockSize(r.block.prefix - 1) == 0)
    ensures 1 <= r.block.prefix ==>
      (CanStartRecord(r) <==> HighBits(r.block.start, r.block.prefix) % 2 == 0)
  {
    if 1 <= r.block.prefix {
      AlignedParentIffEven(r.block.start, r.block.prefix);
      RoundDown(r.block.start, BlockSize(r.block.prefix - 1));
    }
  }

  // ---------------------------------------------------------------------------
  // Runs

  predicate SameKeys(a: Record, b: Record)
  {
    a.serviceCode == b.serviceCode && a.glbId == b.glbId && a.netCode == b.netCode
  }

  /** contSet.IsCont: an empty set takes any record; otherwise the record must have the
      first element's ServiceCode, GLBID and NetCode and start where the last element's
      block ends. The source compares the String() forms of the two addresses, which is
      the same as comparing them (Text.FormatIPv4Injective). */
  function IsCont(run: seq<Record>, r: Record): (ok: bool)
    ensures run == [] ==> ok
    ensures run != [] ==> (ok <==> SameKeys(run[0], r) && NextStartIP(run[|run| - 1]) == r.block.start)
  {
    if |run| == 0 then true
    else if run[0].serviceCode != r.serviceCode then false
    else if run[0].glbId != r.glbId then false
    else if run[0].netCode != r.netCode then false
    else NextStartIP(run[|run| - 1]) == r.block.start
  }

  /** The blocks of a run of records. */
  function BlocksOf(s: seq<Record>): (bs: seq<Block>)
    ensures |bs| == |s| && forall i :: 0 <= i < |s| ==> bs[i] == s[i].block
  {
    seq(|s|, i requires 0 <= i < |s| => s[i].block)
  }

  predicate ChainOf(s: seq<Record>)
  {
    Chain(BlocksOf(s))
  }

  lemma BlocksOfSuffix(s: seq<Record>, k: nat)
    requires k <= |s|
    ensures BlocksOf(s[k..]) == BlocksOf(s)[k..]
  {
  }

  lemma ChainOfSuffix(s: seq<Record>, k: nat)
    requires ChainOf(s) && k <= |s|
    ensures ChainOf(s[k..])
  {
    BlocksOfSuffix(s, k);
    ChainSuffix(BlocksOf(s), k);
  }

  lemma BlocksOfSnoc(s: seq<Record>, r: Record)
    ensures BlocksOf(s + [r]) == BlocksOf(s) + [r.block]
  {
  }

  lemma BlocksOfCons(r: Record, s: seq<Record>)
    ensures BlocksOf([r] + s) == [r.block] + BlocksOf(s)
  {
  }

  /** All records of a run share ServiceCode, GLBID and NetCode. */
  predicate Uniform(s: seq<Record>)
  {
    forall i :: 0 <= i < |s| ==> SameKeys(s[i], s[0])
  }

  /** The addresses the records of `s` with the keys of `k` cover. */
  predicate CoveredBy(s: seq<Record>, k: Record, a: nat)
  {
    exists i :: 0 <= i < |s| && SameKeys(s[i], k) && InBlock(s[i].block, a)
  }

  // ---------------------------------------------------------------------------
  // Sum

  /** One pass of contSet.Sum's loop: what `set2` holds when the loop ends. A pair that
      passes the merge test becomes its parent and the walk skips past both; any other
      record is kept. The test also asks for newParent's precondition, which the Go code
      does not check: on a chain it always holds (PassMergeStep), and PassBlocksOf shows
      that on a chain Pass is the block pass PassBlocks. */
  function Pass(s: seq<Record>): (r: seq<Record>)
    ensures |r| <= |s|
    decreases |s|
  {
    if |s| <= 1 then s
    else if Mergeable(s[0].block, s[1].block) && ParentDefined(s[0]) then
      [NewParent(s[0], s[1])] + Pass(s[2..])
    else
      [s[0]] + Pass(s[1..])
  }

  /** A mergeable pair at the front of a chain is a block of prefix 1..32 that newParent
      accepts, whose parent is the block newParent builds, followed by a chain. */
  lemma PassMergeStep(s: seq<Record>)
    requires ChainOf(s) && |s| > 1 && Mergeable(s[0].block, s[1].block)
    ensures ParentDefined(s[0]) && 1 <= s[0].block.prefix <= 32
    ensures ChainOf(s[2..]) && BlocksOf(s)[2..] == BlocksOf(s[2..])
    ensures NewParent(s[0], s[1]).block == Parent(BlocksOf(s)[0])
  {
    var bs := BlocksOf(s);
    assert bs[0] == s[0].block && bs[1] == s[1].block;
    ChainOfSuffix(s, 2);
    BlocksOfSuffix(s, 2);
    ParentOfPair(bs[0], bs[1]);
  }

  /** On a chain, the records Pass returns carry exactly the blocks PassBlocks computes. */
  lemma {:induction false} PassBlocksOf(s: seq<Record>)
    requires ChainOf(s)
    ensures BlocksOf(Pass(s)) == PassBlocks(BlocksOf(s))
    ensures ChainOf(Pass(s))
    decreases |s|
  {
    if |s| > 1 {
      var bs := BlocksOf(s);
      assert bs[0] == s[0].block && bs[1] == s[1].block;
      if Mergeable(s[0].block, s[1].block) {
        PassMergeStep(s);
        PassBlocksOf(s[2..]);
        BlocksOfCons(NewParent(s[0], s[1]), Pass(s[2..]));
      } else {
        ChainOfSuffix(s, 1);
        BlocksOfSuffix(s, 1);
        PassBlocksOf(s[1..]);
        BlocksOfCons(s[0], Pass(s[1..]));
      }
    }
  }

  lemma UniformSuffix(s: seq<Record>, k: nat)
    requires Uniform(s) && k < |s|
    ensures Uniform(s[k..]) && SameKeys(s[k..][0], s[0])
  {
  }

  lemma UniformCons(r: Record, s: seq<Record>)
    requires Uniform(s) && (|s| > 0 ==> SameKeys(s[0], r))
    ensures Uniform([r] + s)
  {
    var t := [r] + s;
    assert forall i :: 0 < i < |t| ==> t[i] == s[i - 1];
  }

  /** A pass over a run of one ServiceCode, GLBID and NetCode keeps those keys: newParent
      copies them from the first record of the pair. */
  lemma {:induction false} PassUniform(s: seq<Record>)
    requires |s| > 0 && Uniform(s)
    ensures |Pass(s)| > 0 && Uniform(Pass(s)) && SameKeys(Pass(s)[0], s[0])
    decreases |s|
  {
    if |s| > 1 {
      if Mergeable(s[0].block, s[1].block) && ParentDefined(s[0]) {
        if |s| > 2 {
          UniformSuffix(s, 2);
          PassUniform(s[2..]);
        }
        UniformCons(NewParent(s[0], s[1]), Pass(s[2..]));
      } else {
        UniformSuffix(s, 1);
        PassUniform(s[1..]);
        UniformCons(s[0], Pass(s[1..]));
      }
    }
  }

  /** On a chain, a pass that merges nothing returns its input. */
  lemma PassUnchanged(s: seq<Record>)
    requires ChainOf(s) && |Pass(s)| == |s|
    ensures Pass(s) == s
  {
    PassBlocksOf(s);
    PassKeepsLengthIff(BlocksOf(s));
    PassUnchangedRec(s);
  }

  lemma {:induction false} PassUnchangedRec(s: seq<Record>)
    requires NoMergeable(BlocksOf(s))
    ensures Pass(s) == s
    decreases |s|
  {
    if |s| > 1 {
      assert BlocksOf(s)[0] == s[0].block && BlocksOf(s)[1] == s[1].block;
      NoMergeableCons(BlocksOf(s));
      BlocksOfSuffix(s, 1);
      PassUnchangedRec(s[1..]);
      assert [s[0]] + s[1..] == s;
    }
  }

  /** What contSet.Sum leaves in the set: passes repeated until one merges nothing. */
  function SumSpec(s: seq<Record>): (r: seq<Record>)
    ensures |r| <= |s|
    decreases |s|
  {
    if |s| <= 1 then s
    else
      var p := Pass(s);
      if |p| == |s| then s else SumSpec(p)
  }

  /** Sum keeps a chain a chain, from the same first start to the same last end. */
  lemma {:induction false} SumChain(s: seq<Record>)
    requires ChainOf(s)
    ensures ChainOf(SumSpec(s))
    ensures |s| > 0 ==> (|SumSpec(s)| > 0
      && First(BlocksOf(SumSpec(s))) == First(BlocksOf(s))
      && Last(BlocksOf(SumSpec(s))) == Last(BlocksOf(s)))
    decreases |s|
  {
    if |s| > 1 {
      var p := Pass(s);
      if |p| != |s| {
        PassBlocksOf(s);
        SumChain(p);
      }
    }
  }

  /** Sum over a run of one ServiceCode, GLBID and NetCode keeps those keys. */
  lemma {:induction false} SumUniform(s: seq<Record>)
    requires |s| > 0 && Uniform(s)
    ensures |SumSpec(s)| > 0 && Uniform(SumSpec(s)) && SameKeys(SumSpec(s)[0], s[0])
    decreases |s|
  {
    if |s| > 1 {
      var p := Pass(s);
      if |p| != |s| {
        PassUniform(s);
        SumUniform(p);
      }
    }
  }

  /** Sum never empties a set. */
  lemma {:induction false} SumNonEmpty(s: seq<Record>)
    requires |s| > 0
    ensures |SumSpec(s)| > 0
    decreases |s|
  {
    if |s| > 1 && |Pass(s)| != |s| {
      SumNonEmpty(Pass(s));
    }
  }

  /** Sum leaves a set of at most one record as it is. */
  lemma SumShort(s: seq<Record>)
    requires |s| <= 1
    ensures SumSpec(s) == s
  {
  }

  /** On a chain, the result of Sum is a fixpoint of the pass: no neighbours are left to
      merge. */
  lemma {:induction false} SumIsFixpoint(s: seq<Record>)
    requires ChainOf(s)
    ensures NoMergeable(BlocksOf(SumSpec(s)))
    ensures Pass(SumSpec(s)) == SumSpec(s)
    decreases |s|
  {
    PassBlocksOf(s);
    if |s| <= 1 {
      PassKeepsLengthIff(BlocksOf(s));
    } else {
      var p := Pass(s);
      if |p| == |s| {
        PassKeepsLengthIff(BlocksOf(s));
        PassUnchanged(s);
      } else {
        SumIsFixpoint(p);
      }
    }
  }

  /** Summing twice is summing once. */
  lemma SumIdempotent(s: seq<Record>)
    requires ChainOf(s)
    ensures SumSpec(SumSpec(s)) == SumSpec(s)
  {
    SumIsFixpoint(s);
  }

  /** On a chain, Sum changes nothing exactly when no neighbours pass the merge test. */
  lemma SumStopsIff(s: seq<Record>)
    requires ChainOf(s)
    ensures SumSpec(s) == s <==> NoMergeable(BlocksOf(s))
  {
    SumIsFixpoint(s);
    if NoMergeable(BlocksOf(s)) {
      PassUnchangedRec(s);
    }
  }

  /** Sum covers the same addresses as the chain it is given. */
  lemma SumCovers(s: seq<Record>, a: nat)
    requires ChainOf(s)
    ensures Covered(BlocksOf(SumSpec(s)), a) <==> Covered(BlocksOf(s), a)
  {
    SumChain(s);
    if |s| > 0 {
      ChainCovers(BlocksOf(s), a);
      ChainCovers(BlocksOf(SumSpec(s)), a);
    }
  }

  /** The index loop of contSet.Sum from position `i` on, with `acc` the records already
      in `set2`: what `set2` holds when the loop ends. */
  function SumLoop(s: seq<Record>, i: nat, acc: seq<Record>): seq<Record>
    decreases |s| - i
  {
    if i >= |s| then acc
    else if i + 1 < |s| && Mergeable(s[i].block, s[i + 1].block) && ParentDefined(s[i]) then
      SumLoop(s, i + 2, acc + [NewParent(s[i], s[i + 1])])
    else SumLoop(s, i + 1, acc + [s[i]])
  }

  /** The loop from `i` appends the pass over the records from `i` on. */
  lemma {:induction false} SumLoopPass(s: seq<Record>, i: nat, acc: seq<Record>)
    requires i <= |s|
    ensures SumLoop(s, i, acc) == acc + Pass(s[i..])
    decreases |s| - i
  {
    if i == |s| {
      assert acc + [] == acc;
    } else if i + 1 < |s| && Mergeable(s[i].block, s[i + 1].block) && ParentDefined(s[i]) {
      var np := NewParent(s[i], s[i + 1]);
      PassFrontMerged(s, i);
      SumLoopPass(s, i + 2, acc + [np]);
      assert (acc + [np]) + Pass(s[i + 2..]) == acc + ([np] + Pass(s[i + 2..]));
    } else {
      PassFrontKept(s, i);
      SumLoopPass(s, i + 1, acc + [s[i]]);
      assert (acc + [s[i]]) + Pass(s[i + 1..]) == acc + ([s[i]] + Pass(s[i + 1..]));
    }
  }

  /** The pass from `i` on, when the pair at `i` is merged. */
  lemma PassFrontMerged(s: seq<Record>, i: nat)
    requires i + 1 < |s| && Mergeable(s[i].block, s[i + 1].block) && ParentDefined(s[i])
    ensures Pass(s[i..]) == [NewParent(s[i], s[i + 1])] + Pass(s[i + 2..])
  {
    var rest := s[i..];
    assert rest[0] == s[i] && rest[1] == s[i + 1] && rest[2..] == s[i + 2..];
  }

  /** The pass from `i` on, when the record at `i` is kept. */
  lemma PassFrontKept(s: seq<Record>, i: nat)
    requires i < |s|
    requires !(i + 1 < |s| && Mergeable(s[i].block, s[i + 1].block) && ParentDefined(s[i]))
    ensures Pass(s[i..]) == [s[i]] + Pass(s[i + 1..])
  {
    var rest := s[i..];
    assert rest[0] == s[i] && rest[1..] == s[i + 1..];
    if i + 1 < |s| {
      assert rest[1] == s[i + 1];
    }
  }

  /** On a chain, every pair the merge test accepts is one newParent accepts. */
  lemma ChainParentDefined(s: seq<Record>, i: nat)
    requires ChainOf(s) && i + 1 < |s|
    ensures ParentDefined(s[i])
  {
    var bs := BlocksOf(s);
    assert bs[i] == s[i].block && ValidBlock(bs[i]);
    ZeroPrefixOnlyLast(bs, i);
  }

  /** The index loop of contSet.Sum over the records of a chain: `set2` becomes the pass. */
  method SumPass(s: seq<Record>) returns (set2: seq<Record>)
    requires ChainOf(s)
    ensures set2 == Pass(s)
  {
    set2 := [];
    var i := 0;
    SumLoopPass(s, 0, []);
    assert s[0..] == s;
    while i < |s|
      invariant 0 <= i <= |s|
      invariant SumLoop(s, i, set2) == Pass(s)
      decreases |s| - i
    {
      var rec := s[i];
      if HighBits(rec.block.start, rec.block.prefix) % 2 != 0 || i == |s| - 1
        || rec.block.prefix != s[i + 1].block.prefix
      {
        set2 := set2 + [rec];
        i := i + 1;
        continue;
      }
      ChainParentDefined(s, i);
      var newRec := NewParent(rec, s[i + 1]);
      set2 := set2 + [newRec];
      i := i + 2;
    }
  }

  /** contSet: the run being built, a slice that Add and Sum replace through a pointer. */
  class ContSet {
    var elems: seq<Record>

    constructor ()
      ensures elems == []
    {
      elems := [];
    }

    /** Add: appends exactly one record. */
    method Add(r: Record)
      modifies this
      ensures elems == old(elems) + [r]
    {
      elems := elems + [r];
    }

    /** Empties the set (`set = set[:0]`). */
    method Clear()
      modifies this
      ensures elems == []
    {
      elems := [];
    }

    /** contSet.Sum: one pass of the index loop into `set2`, skipping both records of a
        merged pair, then a recursive call unless the pass merged nothing. The error
        branch after newParent cannot be reached (newParent either succeeds or panics). */
    method Sum()
      requires ChainOf(elems)
      modifies this
      ensures elems == SumSpec(old(elems))
      decreases |elems|
    {
      if |elems| <= 1 {
        return;
      }
      var set2 := SumPass(elems);
      if |elems| == |set2| {
        PassUnchanged(elems);
        return;
      }
      PassBlocksOf(elems);
      elems := set2;
      Sum();
    }
  }
}
