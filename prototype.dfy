/** The prototype engine (`main/main.go`): records keyed by region code (rcode) and node
    code (ncode) whose Sum, besides merging blocks, keeps in every merged record the list of
    original records it replaces; EndIP gives the last address of a block. */
module Prototype {
  import opened Wrappers
  import opened Text
  import opened IPv4
  import opened Blocks

  /** IPMSRecord: node code, region code, the block (ipStart, ipStartInt, prefix and ipnet
      all describe it) and the records a merged record replaces. */
  datatype PRecord = PRecord(ncode: string, rcode: string, block: Block, child: seq<PRecord>)

  // ---------------------------------------------------------------------------
  // Orders: IPMSSort.Less and IPMSSort2.Less

  /** IPMSSort.Less: by rcode, then by ipStartInt. */
  predicate Less(a: PRecord, b: PRecord)
  {
    if a.rcode != b.rcode then StrLess(a.rcode, b.rcode) else a.block.start < b.block.start
  }

  /** Less is a strict order: irreflexive and transitive; two records are ordered neither
      way exactly when they have the same rcode and start. */
  lemma LessOrder(a: PRecord, b: PRecord, c: PRecord)
    ensures !Less(a, a)
    ensures Less(a, b) && Less(b, c) ==> Less(a, c)
    ensures !Less(a, b) && !Less(b, a) <==> a.rcode == b.rcode && a.block.start == b.block.start
  {
    StrLessIrreflexive(a.rcode);
    StrLessTotal(a.rcode, b.rcode);
    if Less(a, b) && Less(b, c) && a.rcode != b.rcode && b.rcode != c.rcode {
      StrLessTransitive(a.rcode, b.rcode, c.rcode);
      if a.rcode == c.rcode {
        StrLessTransitive(a.rcode, b.rcode, a.rcode);
      }
    }
  }

  /** IPMSSort2.Less: more merged children first. */
  predicate Less2(a: PRecord, b: PRecord)
  {
    |a.child| > |b.child|
  }

  lemma Less2Order(a: PRecord, b: PRecord, c: PRecord)
    ensures !Less2(a, a)
    ensures Less2(a, b) && Less2(b, c) ==> Less2(a, c)
    ensures !Less2(a, b) && !Less2(b, a) <==> |a.child| == |b.child|
  {
  }

  /** IPMSSort.Swap / IPMSSort2.Swap: exchanges two positions and nothing else. */
  method Swap(a: array<PRecord>, i: int, j: int)
    requires 0 <= i < a.Length && 0 <= j < a.Length
    modifies a
    ensures a[i] == old(a[j]) && a[j] == old(a[i])
    ensures forall k :: 0 <= k < a.Length && k != i && k != j ==> a[k] == old(a[k])
  {
    a[i], a[j] := a[j], a[i];
  }

  // ---------------------------------------------------------------------------
  // Building records

  /** NewRecord: Atoi's error when the prefix text is not a decimal integer; otherwise the
      block of that prefix holding the address, with no children. As in the library
      version, the parsed CIDR is used before its error is looked at, so an address that
      is not IPv4 or a prefix outside 0..32 is excluded by the precondition. */
  function NewRecord(ncode: string, rcode: string, ipStart: string, prefix: string): (r: Result<PRecord, NumError>)
    requires Atoi(prefix).Success? ==> ParseIPv4(ipStart).Some? && 0 <= Atoi(prefix).value <= 32
    ensures r.Failure? <==> Atoi(prefix).Failure?
    ensures r.Failure? ==> r.error == NumError(prefix)
    ensures r.Success? ==>
      && r.value.ncode == ncode && r.value.rcode == rcode && r.value.child == []
      && r.value.block.prefix == Atoi(prefix).value && ValidBlock(r.value.block)
      && InBlock(r.value.block, ParseIPv4(ipStart).value)
  {
    match Atoi(prefix)
    case Failure(e) => Failure(e)
    case Success(p) =>
      var a := ParseIPv4(ipStart).value;
      Success(PRecord(ncode, rcode, Block(Mask(a, p), p), []))
  }

  /** NextStartIP: the start plus 2^(32 - prefix), summed as uint32 (a /0 block wraps to
      its own start). */
  function NextStartIP(r: PRecord): (n: nat)
    ensures n < AddrSpace
    ensures 1 <= r.block.prefix <= 32 ==> n == (r.block.start + BlockSize(r.block.prefix)) % AddrSpace
    ensures r.block.prefix == 0 ==> n == r.block.start % AddrSpace
  {
    NextStart(r.block.start, r.block.prefix)
  }

  /** CanStart: re-parses the start with one bit less of prefix and asks whether masking
      keeps it. */
  function CanStartRecord(r: PRecord): bool
  {
    CanStart(r.block.start, r.block.prefix)
  }

  /** CanStart holds of a valid block exactly when it is the lower half of its parent (the
      parity test of Sum); a /0 block has no parent. */
  lemma CanStartIsLowerHalf(r: PRecord)
    requires ValidBlock(r.block)
    ensures r.block.prefix == 0 ==> !CanStartRecord(r)
    ensures 1 <= r.block.prefix ==>
      (CanStartRecord(r) <==> r.block.start % BlockSize(r.block.prefix - 1) == 0)
    ensures 1 <= r.block.prefix ==>
      (CanStartRecord(r) <==> HighBits(r.block.start, r.block.prefix) % 2 == 0)
  {
    if 1 <= r.block.prefix {
      AlignedParentIffEven(r.block.start, r.block.prefix);
      RoundDown(r.block.start, BlockSize(r.block.prefix - 1));
    }
  }

  /** The original records a record stands for: its children, or itself when it has none. */
  function Leaves(r: PRecord): (ls: seq<PRecord>)
    ensures |ls| > 0
  {
    if r.child != [] then r.child else [r]
  }

  /** The records newParent accepts: one shorter prefix is still 0..32. */
  predicate ParentDefined(r: PRecord)
  {
    1 <= r.block.prefix <= 33 && r.block.start < AddrSpace
  }

  /** The record NewParent returns. */
  function Merged(first: PRecord, second: PRecord): (r: PRecord)
    requires ParentDefined(first)
    ensures r.ncode == first.ncode && r.rcode == first.rcode
    ensures r.block.prefix == first.block.prefix - 1
    ensures ValidBlock(r.block) && InBlock(r.block, first.block.start)
  {
    var p := first.block.prefix - 1;
    PRecord(first.ncode, first.rcode, Block(Mask(first.block.start, p), p), Leaves(first) + Leaves(second))
  }

  /** The children of a merged record are the original records of both halves, in order:
      so its child count is the number of original records merged into it. */
  lemma MergedLeaves(first: PRecord, second: PRecord)
    requires ParentDefined(first)
    ensures Leaves(Merged(first, second)) == Leaves(first) + Leaves(second)
    ensures |Merged(first, second).child| == |Leaves(first)| + |Leaves(second)|
  {
  }

  /** NewParent: the keys of `first`, the prefix one shorter, the start of `first` masked to
      it, and the child list built by appending first's children (or first) and then
      second's children (or second). */
  method NewParent(first: PRecord, second: PRecord) returns (rec: PRecord)
    requires ParentDefined(first)
    ensures rec == Merged(first, second)
  {
    var child: seq<PRecord> := [];
    if |first.child| != 0 {
      child := child + first.child;
    } else {
      child := child + [first];
    }
    if |second.child| != 0 {
      child := child + second.child;
    } else {
      child := child + [second];
    }
    var p := first.block.prefix - 1;
    rec := PRecord(first.ncode, first.rcode, Block(Mask(first.block.start, p), p), child);
  }

  // ---------------------------------------------------------------------------
  // Runs

  function BlocksOf(s: seq<PRecord>): (bs: seq<Block>)
    ensures |bs| == |s| && forall i :: 0 <= i < |s| ==> bs[i] == s[i].block
  {
    seq(|s|, i requires 0 <= i < |s| => s[i].block)
  }

  predicate ChainOf(s: seq<PRecord>)
  {
    Chain(BlocksOf(s))
  }

  lemma BlocksOfSuffix(s: seq<PRecord>, k: nat)
    requires k <= |s|
    ensures BlocksOf(s[k..]) == BlocksOf(s)[k..]
  {
  }

  lemma BlocksOfCons(r: PRecord, s: seq<PRecord>)
    ensures BlocksOf([r] + s) == [r.block] + BlocksOf(s)
  {
  }

  /** All the original records of a run, in order. */
  function Flat(s: seq<PRecord>): seq<PRecord>
    decreases |s|
  {
    if s == [] then [] else Leaves(s[0]) + Flat(s[1..])
  }

  lemma FlatCons(r: PRecord, s: seq<PRecord>)
    ensures Flat([r] + s) == Leaves(r) + Flat(s)
  {
    assert ([r] + s)[1..] == s;
  }

  /** ContSet.IsCont: an empty set takes any record; otherwise the record must have the
      first element's rcode and ncode and start where the last element's block ends. */
  function IsCont(elems: seq<PRecord>, r: PRecord): (ok: bool)
    ensures elems == [] ==> ok
    ensures elems != [] ==>
      (ok <==> elems[0].rcode == r.rcode && elems[0].ncode == r.ncode && NextStartIP(elems[|elems| - 1]) == r.block.start)
  {
    if |elems| == 0 then true
    else if elems[0].rcode != r.rcode then false
    else if elems[0].ncode != r.ncode then false
    else NextStartIP(elems[|elems| - 1]) == r.block.start
  }

  // ---------------------------------------------------------------------------
  // Sum

  /** One pass of ContSet.Sum's loop: a pair that passes the merge test becomes the merged
      record and the walk skips past both; any other record is kept. As in the library
      version the test also asks for newParent's precondition, which holds on chains. */
  function Pass(s: seq<PRecord>): (r: seq<PRecord>)
    ensures |r| <= |s|
    decreases |s|
  {
    if |s| <= 1 then s
    else if Mergeable(s[0].block, s[1].block) && ParentDefined(s[0]) then
      [Merged(s[0], s[1])] + Pass(s[2..])
    else
      [s[0]] + Pass(s[1..])
  }

  lemma FlatMergedPair(x: PRecord, y: PRecord, s: seq<PRecord>)
    requires ParentDefined(x)
    ensures Flat([Merged(x, y)] + s) == Flat([x, y] + s)
  {
    FlatCons(Merged(x, y), s);
    assert [x, y] + s == [x] + ([y] + s);
    FlatCons(x, [y] + s);
    FlatCons(y, s);
  }

  /** A pass keeps every original record, in order. */
  lemma {:induction false} PassLeaves(s: seq<PRecord>)
    ensures Flat(Pass(s)) == Flat(s)
    decreases |s|
  {
    if |s| > 1 {
      if Mergeable(s[0].block, s[1].block) && ParentDefined(s[0]) {
        PassLeaves(s[2..]);
        FlatMergedPair(s[0], s[1], Pass(s[2..]));
        FlatMergedPair(s[0], s[1], s[2..]);
        assert s == [s[0], s[1]] + s[2..];
      } else {
        PassLeaves(s[1..]);
        FlatCons(s[0], Pass(s[1..]));
        FlatCons(s[0], s[1..]);
        assert s == [s[0]] + s[1..];
      }
    }
  }

  lemma PassMergeStep(s: seq<PRecord>)
    requires ChainOf(s) && |s| > 1 && Mergeable(s[0].block, s[1].block)
    ensures ParentDefined(s[0]) && 1 <= s[0].block.prefix <= 32
    ensures ChainOf(s[2..]) && BlocksOf(s)[2..] == BlocksOf(s[2..])
    ensures Merged(s[0], s[1]).block == Parent(BlocksOf(s)[0])
  {
    var bs := BlocksOf(s);
    assert bs[0] == s[0].block && bs[1] == s[1].block;
    BlocksOfSuffix(s, 2);
    ChainSuffix(bs, 2);
    ParentOfPair(bs[0], bs[1]);
  }

  /** On a chain, the records Pass returns carry exactly the blocks PassBlocks computes. */
  lemma {:induction false} PassBlocksOf(s: seq<PRecord>)
    requires ChainOf(s)
    ensures BlocksOf(Pass(s)) == PassBlocks(BlocksOf(s))
    ensures ChainOf(Pass(s))
    decreases |s|
  {
    if |s| > 1 {
      var bs := BlocksOf(s);
      assert bs[0] == s[0].block && bs[1] == s[1].block;
      if Mergeable(s[0].block, s[1].block) {
        PassMergeStep(s);
        PassBlocksOf(s[2..]);
        BlocksOfCons(Merged(s[0], s[1]), Pass(s[2..]));
      } else {
        BlocksOfSuffix(s, 1);
        ChainSuffix(bs, 1);
        PassBlocksOf(s[1..]);
        BlocksOfCons(s[0], Pass(s[1..]));
      }
    }
  }

  lemma {:induction false} PassUnchangedRec(s: seq<PRecord>)
    requires NoMergeable(BlocksOf(s))
    ensures Pass(s) == s
    decreases |s|
  {
    if |s| > 1 {
      assert BlocksOf(s)[0] == s[0].block && BlocksOf(s)[1] == s[1].block;
      NoMergeableCons(BlocksOf(s));
      BlocksOfSuffix(s, 1);
      PassUnchangedRec(s[1..]);
      assert [s[0]] + s[1..] == s;
    }
  }

  /** On a chain, a pass that merges nothing returns its input. */
  lemma PassUnchanged(s: seq<PRecord>)
    requires ChainOf(s) && |Pass(s)| == |s|
    ensures Pass(s) == s
  {
    PassBlocksOf(s);
    PassKeepsLengthIff(BlocksOf(s));
    PassUnchangedRec(s);
  }

  /** What ContSet.Sum leaves in the set: passes repeated until one merges nothing. */
  function SumSpec(s: seq<PRecord>): (r: seq<PRecord>)
    ensures |r| <= |s|
    decreases |s|
  {
    if |s| <= 1 then s
    else
      var p := Pass(s);
      if |p| == |s| then s else SumSpec(p)
  }

  /** Sum keeps every original record, in order: the child counts of the result add up to
      the number of original records. */
  lemma {:induction false} SumLeaves(s: seq<PRecord>)
    ensures Flat(SumSpec(s)) == Flat(s)
    decreases |s|
  {
    if |s| > 1 && |Pass(s)| != |s| {
      PassLeaves(s);
      SumLeaves(Pass(s));
    }
  }

  /** Sum keeps a chain a chain, from the same first start to the same last end. */
  lemma {:induction false} SumChain(s: seq<PRecord>)
    requires ChainOf(s)
    ensures ChainOf(SumSpec(s))
    ensures |s| > 0 ==> (|SumSpec(s)| > 0
      && First(BlocksOf(SumSpec(s))) == First(BlocksOf(s))
      && Last(BlocksOf(SumSpec(s))) == Last(BlocksOf(s)))
    decreases |s|
  {
    if |s| > 1 {
      var p := Pass(s);
      if |p| != |s| {
        PassBlocksOf(s);
        SumChain(p);
      }
    }
  }

  /** On a chain, the result of Sum is a fixpoint of the pass. */
  lemma {:induction false} SumIsFixpoint(s: seq<PRecord>)
    requires ChainOf(s)
    ensures NoMergeable(BlocksOf(SumSpec(s)))
    ensures Pass(SumSpec(s)) == SumSpec(s)
    decreases |s|
  {
    PassBlocksOf(s);
    if |s| <= 1 {
      PassKeepsLengthIff(BlocksOf(s));
    } else {
      var p := Pass(s);
      if |p| == |s| {
        PassKeepsLengthIff(BlocksOf(s));
        PassUnchanged(s);
      } else {
        SumIsFixpoint(p);
      }
    }
  }

  /** Summing twice is summing once. */
  lemma SumIdempotent(s: seq<PRecord>)
    requires ChainOf(s)
    ensures SumSpec(SumSpec(s)) == SumSpec(s)
  {
    SumIsFixpoint(s);
  }

  /** Sum covers the same addresses as the chain it is given. */
  lemma SumCovers(s: seq<PRecord>, a: nat)
    requires ChainOf(s)
    ensures Covered(BlocksOf(SumSpec(s)), a) <==> Covered(BlocksOf(s), a)
  {
    SumChain(s);
    if |s| > 0 {
      ChainCovers(BlocksOf(s), a);
      ChainCovers(BlocksOf(SumSpec(s)), a);
    }
  }

  /** The index loop of ContSet.Sum from position `i` on, `acc` being set2 so far. */
  function SumLoop(s: seq<PRecord>, i: nat, acc: seq<PRecord>): seq<PRecord>
    decreases |s| - i
  {
    if i >= |s| then acc
    else if i + 1 < |s| && Mergeable(s[i].block, s[i + 1].block) && ParentDefined(s[i]) then
      SumLoop(s, i + 2, acc + [Merged(s[i], s[i + 1])])
    else SumLoop(s, i + 1, acc + [s[i]])
  }

  lemma {:induction false} SumLoopPass(s: seq<PRecord>, i: nat, acc: seq<PRecord>)
    requires i <= |s|
    ensures SumLoop(s, i, acc) == acc + Pass(s[i..])
    decreases |s| - i
  {
    if i == |s| {
      assert acc + [] == acc;
    } else if i + 1 < |s| && Mergeable(s[i].block, s[i + 1].block) && ParentDefined(s[i]) {
      var np := Merged(s[i], s[i + 1]);
      PassFrontMerged(s, i);
      SumLoopPass(s, i + 2, acc + [np]);
      assert (acc + [np]) + Pass(s[i + 2..]) == acc + ([np] + Pass(s[i + 2..]));
    } else {
      PassFrontKept(s, i);
      SumLoopPass(s, i + 1, acc + [s[i]]);
      assert (acc + [s[i]]) + Pass(s[i + 1..]) == acc + ([s[i]] + Pass(s[i + 1..]));
    }
  }

  /** The pass from `i` on, when the pair at `i` is merged. */
  lemma PassFrontMerged(s: seq<PRecord>, i: nat)
    requires i + 1 < |s| && Mergeable(s[i].block, s[i + 1].block) && ParentDefined(s[i])
    ensures Pass(s[i..]) == [Merged(s[i], s[i + 1])] + Pass(s[i + 2..])
  {
    var rest := s[i..];
    assert rest[0] == s[i] && rest[1] == s[i + 1] && rest[2..] == s[i + 2..];
  }

  /** The pass from `i` on, when the record at `i` is kept. */
  lemma PassFrontKept(s: seq<PRecord>, i: nat)
    requires i < |s|
    requires !(i + 1 < |s| && Mergeable(s[i].block, s[i + 1].block) && ParentDefined(s[i]))
    ensures Pass(s[i..]) == [s[i]] + Pass(s[i + 1..])
  {
    var rest := s[i..];
    assert rest[0] == s[i] && rest[1..] == s[i + 1..];
    if i + 1 < |s| {
      assert rest[1] == s[i + 1];
    }
  }

  lemma ChainParentDefined(s: seq<PRecord>, i: nat)
    requires ChainOf(s) && i + 1 < |s|
    ensures ParentDefined(s[i])
  {
    var bs := BlocksOf(s);
    assert bs[i] == s[i].block && ValidBlock(bs[i]);
    ZeroPrefixOnlyLast(bs, i);
  }

  /** The index loop of ContSet.Sum over a chain: `set2` becomes the pass. */
  method SumPass(s: seq<PRecord>) returns (set2: seq<PRecord>)
    requires ChainOf(s)
    ensures set2 == Pass(s)
  {
    set2 := [];
    var i := 0;
    SumLoopPass(s, 0, []);
    assert s[0..] == s;
    while i < |s|
      invariant 0 <= i <= |s|
      invariant SumLoop(s, i, set2) == Pass(s)
      decreases |s| - i
    {
      var rec := s[i];
      if HighBits(rec.block.start, rec.block.prefix) % 2 != 0 || i == |s| - 1
        || rec.block.prefix != s[i + 1].block.prefix
      {
        set2 := set2 + [rec];
        i := i + 1;
        continue;
      }
      ChainParentDefined(s, i);
      var newRec := NewParent(rec, s[i + 1]);
      set2 := set2 + [newRec];
      i := i + 2;
    }
  }

  /** ContSet: the run being built. */
  class ContSet {
    var elems: seq<PRecord>

    constructor ()
      ensures elems == []
    {
      elems := [];
    }

    /** Add: appends exactly one record. */
    method Add(r: PRecord)
      modifies this
      ensures elems == old(elems) + [r]
    {
      elems := elems + [r];
    }

    /** ContSet.Sum: one pass into set2, then a recursive call unless the pass merged
        nothing. */
    method Sum()
      requires ChainOf(elems)
      modifies this
      ensures elems == SumSpec(old(elems))
      decreases |elems|
    {
      if |elems| <= 1 {
        return;
      }
      var set2 := SumPass(elems);
      if |elems| == |set2| {
        PassUnchanged(elems);
        return;
      }
      PassBlocksOf(elems);
      elems := set2;
      Sum();
    }
  }

  // ---------------------------------------------------------------------------
  // EndIP

  function Clamp32(n: int): nat
  {
    if n < 0 then 0 else if n > 32 then 32 else n
  }

  function Clamp0(n: int): nat
  {
    if n < 0 then 0 else n
  }

  /** What EndIP returns: the start plus 2^(32 - prefix) - 1 in uint32 arithmetic, the
      terms past bit 31 being lost to the shift. */
  function EndSpec(start: nat, prefix: int): nat
  {
    (start + Pow2(Clamp32(32 - prefix)) - 1) % AddrSpace
  }

  lemma ModAddLeft(x: int, y: int, m: int)
    requires m > 0
    ensures (x % m + y) % m == (x + y) % m
  {
    var q := x / m;
    assert x == q * m + x % m;
    var r := (x % m + y) % m;
    var q2 := (x % m + y) / m;
    assert x % m + y == q2 * m + r;
    DivModUnique(x + y, m, q + q2, r);
  }

  /** One round of EndIP's loop: adding bit i (lost when i is 32 or more) doubles the
      block counted so far. */
  lemma EndStep(start: nat, i: nat, e: nat)
    requires e == (start + Pow2(Clamp32(i)) - 1) % AddrSpace
    ensures (e + Shl32(i)) % AddrSpace == (start + Pow2(Clamp32(i + 1)) - 1) % AddrSpace
  {
    if i < 32 {
      Pow2Add(i, 1);
      assert Pow2(Clamp32(i + 1)) == Pow2(i) + Pow2(i);
      ModAddLeft(start + Pow2(i) - 1, Pow2(i), AddrSpace);
    } else {
      assert Clamp32(i + 1) == Clamp32(i);
      assert e % AddrSpace == e;
    }
  }

  /** EndIP: starting from the start, adds 1 << i for every i below 32 - prefix, each
      addition in uint32. */
  method EndIP(start: nat, prefix: int) returns (endInt: nat)
    requires start < AddrSpace
    ensures endInt == EndSpec(start, prefix)
  {
    endInt := start;
    var i := 0;
    while i < 32 - prefix
      invariant 0 <= i <= Clamp0(32 - prefix)
      invariant endInt == (start + Pow2(Clamp32(i)) - 1) % AddrSpace
    {
      EndStep(start, i, endInt);
      endInt := (endInt + Shl32(i)) % AddrSpace;
      i := i + 1;
    }
    assert Clamp32(i) == Clamp32(32 - prefix);
  }

  /** The address after EndIP is NextStartIP, for every prefix 0..32 (for /0 both wrap to
      the start). */
  lemma EndIPNext(start: nat, prefix: int)
    requires start < AddrSpace && 0 <= prefix <= 32
    ensures (EndSpec(start, prefix) + 1) % AddrSpace == NextStart(start, prefix)
  {
    var n := 32 - prefix;
    ModAddLeft(start + Pow2(n) - 1, 1, AddrSpace);
    if prefix == 0 {
      Pow2Constants();
      assert (start + AddrSpace) % AddrSpace == start;
    }
  }

  /** For a valid block EndIP is its last address, with no wrap. */
  lemma EndIPLast(b: Block)
    requires ValidBlock(b)
    ensures EndSpec(b.start, b.prefix) == End(b) - 1
    ensures InBlock(b, EndSpec(b.start, b.prefix))
  {
    ValidBlockEnd(b);
  }
}
