/** The importer's getIPMSRecords (`ipms-importer/getter.go`): every line of the IPMS file
    whose office code has entries in the office -> region mapping yields one record per
    entry; the records are sorted, cut into contiguous runs that are summed, and grouped by
    ServiceCode and RegionID. The file is given as its lines already split at '|'. */
module Importer {
  import opened Wrappers
  import opened Text
  import opened IPv4
  import opened Blocks
  import opened IpmsRecord
  import opened Join
  import opened Grouping
  import opened IpmsGetter

  /** One line of the file, split at '|'. */
  type Line = seq<string>

  /** The office code -> officeRegionMapping multimap of the join. */
  type Mapping = map<string, seq<OfficeGroup>>

  // ---------------------------------------------------------------------------
  // The line scan

  /** The line's office code has at least one mapping entry, so the line yields records. */
  predicate Mapped(line: Line, mapping: Mapping)
    requires |line| >= 6
  {
    line[5] in mapping && mapping[line[5]] != []
  }

  /** What the scan demands of a line: field 5 exists, and a mapped line has fields 0 and 7
      and, when field 7 is a number, an IPv4 address in field 0 and a prefix in 0..32 (the
      Go code indexes the fields and uses the parsed CIDR without checking first). */
  predicate Readable(line: Line, mapping: Mapping)
  {
    |line| >= 6
    && (Mapped(line, mapping) ==>
          |line| >= 8
          && (Atoi(line[7]).Success? ==> ParseIPv4(line[0]).Some? && 0 <= Atoi(line[7]).value <= 32))
  }

  predicate AllReadable(lines: seq<Line>, mapping: Mapping)
  {
    forall i :: 0 <= i < |lines| ==> Readable(lines[i], mapping)
  }

  /** A line the scan reads and gets past: readable, and not a line that fails. */
  predicate GoodLine(line: Line, mapping: Mapping)
  {
    Readable(line, mapping) && !BadLine(line, mapping)
  }

  /** The scan gets past every line. */
  predicate AllGood(lines: seq<Line>, mapping: Mapping)
  {
    forall i :: 0 <= i < |lines| ==> GoodLine(lines[i], mapping)
  }

  /** What getIPMSRecords demands of the file: every line it reaches is readable. It reaches
      a line exactly when it got past all the lines before it, so whatever follows the first
      failing line is never looked at and may be anything. */
  predicate ReadableUntilBad(lines: seq<Line>, mapping: Mapping)
  {
    forall i :: 0 <= i < |lines| && AllGood(lines[..i], mapping) ==> Readable(lines[i], mapping)
  }

  lemma ReadableUntilBadPrefix(lines: seq<Line>, k: nat, mapping: Mapping)
    requires ReadableUntilBad(lines, mapping) && k <= |lines|
    ensures ReadableUntilBad(lines[..k], mapping)
  {
    forall i | 0 <= i < k && AllGood(lines[..k][..i], mapping)
      ensures Readable(lines[..k][i], mapping)
    {
      assert lines[..k][..i] == lines[..i];
    }
  }

  lemma AllGoodPrefix(lines: seq<Line>, k: nat, mapping: Mapping)
    requires AllGood(lines, mapping) && k <= |lines|
    ensures AllGood(lines[..k], mapping)
  {
    assert forall i :: 0 <= i < k ==> lines[..k][i] == lines[i];
  }

  /** Every line has an office code field. */
  predicate HasOffice(lines: seq<Line>)
  {
    forall i :: 0 <= i < |lines| ==> |lines[i]| >= 6
  }

  /** The record newRecord builds for `line` from one mapping entry: the entry's ServiceCode
      and RegionID (filed as the GLBID), no NetCode, the line's office code, address and
      prefix. */
  function EntryRecord(line: Line, g: OfficeGroup): (r: Result<Record, NumError>)
    requires |line| >= 8 && (Atoi(line[7]).Success? ==> ParseIPv4(line[0]).Some? && 0 <= Atoi(line[7]).value <= 32)
    ensures r.Failure? <==> Atoi(line[7]).Failure?
    ensures r.Success? ==>
      && r.value.serviceCode == g.serviceCode && r.value.glbId == g.groupId
      && r.value.netCode == "" && r.value.officeCode == line[5]
      && ValidBlock(r.value.block) && InBlock(r.value.block, ParseIPv4(line[0]).value)
      && r.value.block.prefix == Atoi(line[7]).value
  {
    NewRecord(g.serviceCode, g.groupId, "", line[5], line[0], line[7])
  }

  /** The inner loop over the entries of the line's office code: the records of the first
      `|glbs|` entries, or the first newRecord error. */
  function LineRecords(line: Line, glbs: seq<OfficeGroup>): Result<seq<Record>, NumError>
    requires |line| >= 8 && (Atoi(line[7]).Success? ==> ParseIPv4(line[0]).Some? && 0 <= Atoi(line[7]).value <= 32)
    decreases |glbs|
  {
    if glbs == [] then Success([])
    else
      match LineRecords(line, glbs[..|glbs| - 1])
      case Failure(e) => Failure(e)
      case Success(rs) =>
        match EntryRecord(line, glbs[|glbs| - 1])
        case Failure(e) => Failure(e)
        case Success(r) => Success(rs + [r])
  }

  /** The precondition of newRecord for the line's address and prefix fields. */
  predicate Fields(line: Line)
  {
    |line| >= 8 && (Atoi(line[7]).Success? ==> ParseIPv4(line[0]).Some? && 0 <= Atoi(line[7]).value <= 32)
  }

  /** A line fails exactly when it has entries and its prefix is not a number, and then
      with Atoi's error for the prefix. */
  lemma {:induction false} LineRecordsFails(line: Line, glbs: seq<OfficeGroup>)
    requires Fields(line)
    ensures LineRecords(line, glbs).Failure? <==> glbs != [] && Atoi(line[7]).Failure?
    ensures LineRecords(line, glbs).Failure? ==> LineRecords(line, glbs).error == NumError(line[7])
    decreases |glbs|
  {
    if glbs != [] {
      LineRecordsFails(line, glbs[..|glbs| - 1]);
    }
  }

  /** Otherwise the line yields one record per entry, in order, each the record newRecord
      builds from that entry. */
  lemma {:induction false} LineRecordsValues(line: Line, glbs: seq<OfficeGroup>)
    requires Fields(line) && LineRecords(line, glbs).Success?
    ensures |LineRecords(line, glbs).value| == |glbs|
    ensures forall j :: 0 <= j < |glbs| ==> EntryRecord(line, glbs[j]) == Success(LineRecords(line, glbs).value[j])
    decreases |glbs|
  {
    if glbs != [] {
      var init := glbs[..|glbs| - 1];
      LineRecordsValues(line, init);
      var rs := LineRecords(line, glbs).value;
      var rs0 := LineRecords(line, init).value;
      assert rs == rs0 + [EntryRecord(line, glbs[|glbs| - 1]).value];
      assert forall j :: 0 <= j < |init| ==> rs[j] == rs0[j] && glbs[j] == init[j];
    }
  }

  /** What the scan has built: recs, lineCnt, invalidLineCnt and failedOfficeCodes (office
      code -> number of the last line that had it). */
  datatype Scan = Scan(recs: seq<Record>, lineCnt: nat, invalidLineCnt: nat, failedOfficeCodes: map<string, nat>)

  /** One pass of the scan loop body. */
  function ScanStep(st: Scan, line: Line, mapping: Mapping): Result<Scan, NumError>
    requires Readable(line, mapping)
  {
    var n := st.lineCnt + 1;
    var officeCode := line[5];
    if officeCode in mapping then
      if mapping[officeCode] == [] then Success(st.(lineCnt := n))
      else
        match LineRecords(line, mapping[officeCode])
        case Failure(e) => Failure(e)
        case Success(rs) => Success(st.(recs := st.recs + rs, lineCnt := n))
    else
      Success(st.(lineCnt := n, invalidLineCnt := st.invalidLineCnt + 1,
                  failedOfficeCodes := st.failedOfficeCodes[officeCode := n]))
  }

  /** The scan over `lines`: the state after the last line, or the first error. A line
      after a failure is not looked at; a scan that succeeds got past every line. */
  function ScanOf(lines: seq<Line>, mapping: Mapping): (r: Result<Scan, NumError>)
    requires ReadableUntilBad(lines, mapping)
    ensures r.Success? ==> AllGood(lines, mapping)
    decreases |lines|
  {
    if lines == [] then Success(Scan([], 0, 0, map[]))
    else
      var n := |lines| - 1;
      ReadableUntilBadPrefix(lines, n, mapping);
      match ScanOf(lines[..n], mapping)
      case Failure(e) => Failure(e)
      case Success(st) =>
        assert Readable(lines[n], mapping);
        ScanStepFails(st, lines[n], mapping);
        ScanStep(st, lines[n], mapping)
  }

  lemma ScanOfSnoc(lines: seq<Line>, i: nat, mapping: Mapping)
    requires i < |lines| && ReadableUntilBad(lines[..i + 1], mapping)
    ensures ReadableUntilBad(lines[..i], mapping)
    ensures ScanOf(lines[..i], mapping).Failure? ==> ScanOf(lines[..i + 1], mapping) == ScanOf(lines[..i], mapping)
    ensures ScanOf(lines[..i], mapping).Success? ==>
      Readable(lines[i], mapping) &&
      ScanOf(lines[..i + 1], mapping) == ScanStep(ScanOf(lines[..i], mapping).value, lines[i], mapping)
  {
    assert lines[..i + 1][..i] == lines[..i];
    ReadableUntilBadPrefix(lines[..i + 1], i, mapping);
  }

  /** Once the scan has failed, reading more lines, whatever they hold, keeps the same
      error. */
  lemma {:induction false} ScanFailureSticks(lines: seq<Line>, k: nat, mapping: Mapping)
    requires k <= |lines| && ReadableUntilBad(lines[..k], mapping) && ScanOf(lines[..k], mapping).Failure?
    ensures ReadableUntilBad(lines, mapping)
    ensures ScanOf(lines, mapping) == ScanOf(lines[..k], mapping)
    decreases |lines| - k
  {
    if k == |lines| {
      assert lines[..k] == lines;
    } else {
      FailedPrefixReadable(lines, k + 1, mapping);
      ScanOfSnoc(lines, k, mapping);
      ScanFailureSticks(lines, k + 1, mapping);
    }
  }

  /** A prefix whose scan fails makes one more line readable-until-bad, whatever it is. */
  lemma FailedPrefixReadable(lines: seq<Line>, k: nat, mapping: Mapping)
    requires 0 < k <= |lines| && ReadableUntilBad(lines[..k - 1], mapping)
    requires ScanOf(lines[..k - 1], mapping).Failure?
    ensures ReadableUntilBad(lines[..k], mapping)
  {
    var t := lines[..k];
    assert t[..k - 1] == lines[..k - 1];
    forall i | 0 <= i < k && AllGood(t[..i], mapping)
      ensures Readable(t[i], mapping)
    {
      assert t[..i] == lines[..k - 1][..i];
      if i == k - 1 {
        ScanFailsMeaning(lines[..k - 1], mapping);
        assert false;
      }
    }
  }

  /** The inner loop of the scan: appends to `recs` one newRecord per mapping entry of the
      line's office code, or stops at the first error. */
  method AppendLineRecords(recs: seq<Record>, line: Line, glbs: seq<OfficeGroup>)
    returns (r: Result<seq<Record>, NumError>)
    requires glbs != [] ==> |line| >= 8 && (Atoi(line[7]).Success? ==> ParseIPv4(line[0]).Some? && 0 <= Atoi(line[7]).value <= 32)
    ensures glbs == [] ==> r == Success(recs)
    ensures glbs != [] && LineRecords(line, glbs).Failure? ==> r == Failure(LineRecords(line, glbs).error)
    ensures glbs != [] && LineRecords(line, glbs).Success? ==> r == Success(recs + LineRecords(line, glbs).value)
  {
    var out := recs;
    ghost var lineRecs: seq<Record> := [];
    var j := 0;
    while j < |glbs|
      invariant 0 <= j <= |glbs|
      invariant out == recs + lineRecs
      invariant glbs == [] ==> lineRecs == []
      invariant glbs != [] ==> LineRecords(line, glbs[..j]) == Success(lineRecs)
    {
      assert glbs[..j + 1][..j] == glbs[..j];
      var rec := NewRecord(glbs[j].serviceCode, glbs[j].groupId, "", line[5], line[0], line[7]);
      if rec.Failure? {
        LineRecordsFails(line, glbs);
        return Failure(rec.error);
      }
      out := out + [rec.value];
      lineRecs := lineRecs + [rec.value];
      j := j + 1;
    }
    assert glbs[..j] == glbs;
    return Success(out);
  }

  /** One pass of the scan loop body over the loop's variables: count the line, then
      append its records or file its office code as failed; a newRecord error is returned. */
  method ReadLine(recs: seq<Record>, lineCnt: nat, invalidLineCnt: nat, failedOfficeCodes: map<string, nat>,
                  line: Line, mapping: Mapping)
    returns (r: Result<Scan, NumError>)
    requires Readable(line, mapping)
    ensures r == ScanStep(Scan(recs, lineCnt, invalidLineCnt, failedOfficeCodes), line, mapping)
  {
    var cnt := lineCnt + 1;
    var officeCode := line[5];
    if officeCode in mapping {
      var glbs := mapping[officeCode];
      var next := AppendLineRecords(recs, line, glbs);
      if next.Failure? {
        return Failure(next.error);
      }
      return Success(Scan(next.value, cnt, invalidLineCnt, failedOfficeCodes));
    }
    return Success(Scan(recs, cnt, invalidLineCnt + 1, failedOfficeCodes[officeCode := cnt]));
  }

  /** The scan loop of getIPMSRecords, with the inner loop over the office code's mapping
      entries; a newRecord error ends it at once. */
  method ScanLines(lines: seq<Line>, mapping: Mapping) returns (r: Result<Scan, NumError>)
    requires ReadableUntilBad(lines, mapping)
    ensures r == ScanOf(lines, mapping)
  {
    var recs: seq<Record> := [];
    var lineCnt: nat := 0;
    var invalidLineCnt: nat := 0;
    var failedOfficeCodes: map<string, nat> := map[];
    var i := 0;
    while i < |lines|
      invariant 0 <= i <= |lines|
      invariant ReadableUntilBad(lines[..i], mapping)
      invariant ScanOf(lines[..i], mapping) == Success(Scan(recs, lineCnt, invalidLineCnt, failedOfficeCodes))
    {
      ReadableUntilBadPrefix(lines, i + 1, mapping);
      ScanOfSnoc(lines, i, mapping);
      var next := ReadLine(recs, lineCnt, invalidLineCnt, failedOfficeCodes, lines[i], mapping);
      if next.Failure? {
        ScanFailureSticks(lines, i + 1, mapping);
        return Failure(next.error);
      }
      recs, lineCnt, invalidLineCnt, failedOfficeCodes :=
        next.value.recs, next.value.lineCnt, next.value.invalidLineCnt, next.value.failedOfficeCodes;
      i := i + 1;
    }
    assert lines[..i] == lines;
    r := Success(Scan(recs, lineCnt, invalidLineCnt, failedOfficeCodes));
  }

  // ---------------------------------------------------------------------------
  // What the scan means

  /** A line that makes the scan fail: it has mapping entries and its prefix is not a
      number. */
  predicate BadLine(line: Line, mapping: Mapping)
    requires |line| >= 6
  {
    Mapped(line, mapping) && |line| >= 8 && Atoi(line[7]).Failure?
  }

  /** The records of every line, the lines read in order; what recs holds on success. */
  function RecordsOf(lines: seq<Line>, mapping: Mapping): seq<Record>
    requires AllReadable(lines, mapping)
    decreases |lines|
  {
    if lines == [] then []
    else
      var line := lines[|lines| - 1];
      var rest := RecordsOf(lines[..|lines| - 1], mapping);
      if Mapped(line, mapping) && LineRecords(line, mapping[line[5]]).Success? then
        rest + LineRecords(line, mapping[line[5]]).value
      else rest
  }

  /** The line numbers (from 1) of the lines whose office code is not in the mapping. */
  function InvalidLines(lines: seq<Line>, mapping: Mapping): set<nat>
    requires HasOffice(lines)
  {
    set i | 0 <= i < |lines| && lines[i][5] !in mapping :: i + 1
  }

  lemma InvalidLinesSnoc(lines: seq<Line>, mapping: Mapping)
    requires HasOffice(lines) && |lines| > 0
    ensures var n := |lines| - 1;
      InvalidLines(lines, mapping) ==
        if lines[n][5] in mapping then InvalidLines(lines[..n], mapping)
        else InvalidLines(lines[..n], mapping) + {n + 1}
    ensures |lines| !in InvalidLines(lines[..|lines| - 1], mapping)
  {
    var n := |lines| - 1;
    var pre := lines[..n];
    assert forall j :: 0 <= j < n ==> pre[j] == lines[j];
  }

  /** failedOfficeCodes holds exactly the office codes of the lines that are not in the
      mapping, each with the number of the last line that had it. */
  ghost predicate FailedMeans(lines: seq<Line>, mapping: Mapping, failed: map<string, nat>)
    requires HasOffice(lines)
  {
    FailedKeys(lines, mapping, failed) && FailedLast(lines, failed)
  }

  /** The keys of failedOfficeCodes are the unmapped office codes that occur. */
  ghost predicate FailedKeys(lines: seq<Line>, mapping: Mapping, failed: map<string, nat>)
    requires HasOffice(lines)
  {
    forall k :: k in failed <==> k !in mapping && exists i :: 0 <= i < |lines| && lines[i][5] == k
  }

  /** Each key of failedOfficeCodes maps to the number of the last line with that code. */
  ghost predicate FailedLast(lines: seq<Line>, failed: map<string, nat>)
    requires HasOffice(lines)
  {
    forall k :: k in failed ==>
      && 1 <= failed[k] <= |lines|
      && lines[failed[k] - 1][5] == k
      && forall i :: failed[k] <= i < |lines| ==> lines[i][5] != k
  }

  /** A line whose office code is in the mapping leaves failedOfficeCodes as it is. */
  lemma FailedStepMapped(lines: seq<Line>, mapping: Mapping, failed: map<string, nat>)
    requires HasOffice(lines) && |lines| > 0 && lines[|lines| - 1][5] in mapping
    requires FailedMeans(lines[..|lines| - 1], mapping, failed)
    ensures FailedMeans(lines, mapping, failed)
  {
    var n := |lines| - 1;
    var pre := lines[..n];
    assert forall j :: 0 <= j < n ==> pre[j] == lines[j];
    forall k | k !in mapping && exists i :: 0 <= i < |lines| && lines[i][5] == k
      ensures k in failed
    {
      var i :| 0 <= i < |lines| && lines[i][5] == k;
      assert pre[i][5] == k;
    }
  }

  /** Any other line files its office code under its own line number. */
  lemma FailedStepUnmapped(lines: seq<Line>, mapping: Mapping, failed: map<string, nat>)
    requires HasOffice(lines) && |lines| > 0 && lines[|lines| - 1][5] !in mapping
    requires FailedMeans(lines[..|lines| - 1], mapping, failed)
    ensures FailedMeans(lines, mapping, failed[lines[|lines| - 1][5] := |lines|])
  {
    FailedKeysUnmapped(lines, mapping, failed);
    FailedLastUnmapped(lines, failed);
  }

  lemma FailedKeysUnmapped(lines: seq<Line>, mapping: Mapping, failed: map<string, nat>)
    requires HasOffice(lines) && |lines| > 0 && lines[|lines| - 1][5] !in mapping
    requires FailedKeys(lines[..|lines| - 1], mapping, failed)
    ensures FailedKeys(lines, mapping, failed[lines[|lines| - 1][5] := |lines|])
  {
    var n := |lines| - 1;
    var pre := lines[..n];
    var code := lines[n][5];
    var f2 := failed[code := n + 1];
    forall k | k !in mapping && k != code && exists i :: 0 <= i < |lines| && lines[i][5] == k
      ensures k in f2
    {
      var i :| 0 <= i < |lines| && lines[i][5] == k;
      assert pre[i] == lines[i];
    }
    forall k | k in f2 && k != code
      ensures exists i :: 0 <= i < |lines| && lines[i][5] == k
    {
      var i :| 0 <= i < n && pre[i][5] == k;
      assert lines[i] == pre[i];
    }
  }

  lemma FailedLastUnmapped(lines: seq<Line>, failed: map<string, nat>)
    requires HasOffice(lines) && |lines| > 0
    requires FailedLast(lines[..|lines| - 1], failed)
    ensures FailedLast(lines, failed[lines[|lines| - 1][5] := |lines|])
  {
    var n := |lines| - 1;
    var pre := lines[..n];
    assert forall j :: 0 <= j < n ==> pre[j] == lines[j];
    var code := lines[n][5];
    var f2 := failed[code := n + 1];
    forall k | k in f2
      ensures 1 <= f2[k] <= |lines| && lines[f2[k] - 1][5] == k
      ensures forall i :: f2[k] <= i < |lines| ==> lines[i][5] != k
    {
      if k != code {
        assert lines[f2[k] - 1] == pre[f2[k] - 1];
      }
    }
  }

  /** The scan reads every line (lineCnt), counts the lines whose office code is not in the
      mapping (invalidLineCnt), keeps FailedMeans, and keeps the records of the mapped lines
      in order. */
  ghost predicate ScanMeans(lines: seq<Line>, mapping: Mapping, st: Scan)
    requires AllReadable(lines, mapping)
  {
    assert HasOffice(lines);
    && st.lineCnt == |lines|
    && st.invalidLineCnt == |InvalidLines(lines, mapping)|
    && st.recs == RecordsOf(lines, mapping)
    && FailedMeans(lines, mapping, st.failedOfficeCodes)
  }

  /** A line whose office code is not in the mapping is counted and filed as failed. */
  lemma ScanMeansUnmapped(lines: seq<Line>, mapping: Mapping, st: Scan)
    requires AllReadable(lines, mapping) && |lines| > 0 && lines[|lines| - 1][5] !in mapping
    requires ScanMeans(lines[..|lines| - 1], mapping, st)
    ensures ScanMeans(lines, mapping,
      st.(lineCnt := st.lineCnt + 1, invalidLineCnt := st.invalidLineCnt + 1,
          failedOfficeCodes := st.failedOfficeCodes[lines[|lines| - 1][5] := |lines|]))
  {
    InvalidLinesSnoc(lines, mapping);
    FailedStepUnmapped(lines, mapping, st.failedOfficeCodes);
  }

  /** A line whose office code is in the mapping adds the records of its entries. */
  lemma ScanMeansMapped(lines: seq<Line>, mapping: Mapping, st: Scan, rs: seq<Record>)
    requires AllReadable(lines, mapping) && |lines| > 0 && lines[|lines| - 1][5] in mapping
    requires ScanMeans(lines[..|lines| - 1], mapping, st)
    requires RecordsOf(lines, mapping) == RecordsOf(lines[..|lines| - 1], mapping) + rs
    ensures ScanMeans(lines, mapping, st.(recs := st.recs + rs, lineCnt := st.lineCnt + 1))
  {
    InvalidLinesSnoc(lines, mapping);
    FailedStepMapped(lines, mapping, st.failedOfficeCodes);
  }

  lemma ScanMeansStep(lines: seq<Line>, mapping: Mapping, st: Scan)
    requires AllReadable(lines, mapping) && |lines| > 0
    requires ScanMeans(lines[..|lines| - 1], mapping, st)
    requires ScanStep(st, lines[|lines| - 1], mapping).Success?
    ensures ScanMeans(lines, mapping, ScanStep(st, lines[|lines| - 1], mapping).value)
  {
    var n := |lines| - 1;
    var line := lines[n];
    if line[5] !in mapping {
      ScanMeansUnmapped(lines, mapping, st);
    } else if mapping[line[5]] == [] {
      ScanMeansMapped(lines, mapping, st, []);
    } else {
      ScanMeansMapped(lines, mapping, st, LineRecords(line, mapping[line[5]]).value);
    }
  }

  /** The scan's error, if any: Atoi's error for the prefix of the first bad line, the
      lines before it all good. */
  ghost predicate FailsAtFirstBad(lines: seq<Line>, mapping: Mapping, e: NumError)
  {
    exists i :: 0 <= i < |lines| && AllGood(lines[..i], mapping)
      && Readable(lines[i], mapping) && BadLine(lines[i], mapping) && e == NumError(lines[i][7])
  }

  /** One more line fails the scan exactly when it is bad. */
  lemma ScanStepFails(st: Scan, line: Line, mapping: Mapping)
    requires Readable(line, mapping)
    ensures ScanStep(st, line, mapping).Failure? <==> BadLine(line, mapping)
    ensures ScanStep(st, line, mapping).Failure? ==> ScanStep(st, line, mapping).error == NumError(line[7])
  {
    if Mapped(line, mapping) {
      LineRecordsFails(line, mapping[line[5]]);
    }
  }

  /** The scan succeeds exactly when it gets past every line; otherwise it fails with the
      error of the first bad line, whatever the lines after it hold. */
  lemma {:induction false} ScanFailsMeaning(lines: seq<Line>, mapping: Mapping)
    requires ReadableUntilBad(lines, mapping)
    ensures ScanOf(lines, mapping).Success? <==> AllGood(lines, mapping)
    ensures ScanOf(lines, mapping).Failure? ==> FailsAtFirstBad(lines, mapping, ScanOf(lines, mapping).error)
    decreases |lines|
  {
    if lines != [] {
      var n := |lines| - 1;
      var pre := lines[..n];
      ReadableUntilBadPrefix(lines, n, mapping);
      ScanFailsMeaning(pre, mapping);
      if ScanOf(pre, mapping).Failure? {
        var e := ScanOf(pre, mapping).error;
        var i :| 0 <= i < |pre| && AllGood(pre[..i], mapping)
          && Readable(pre[i], mapping) && BadLine(pre[i], mapping) && e == NumError(pre[i][7]);
        assert pre[..i] == lines[..i] && pre[i] == lines[i];
        assert !GoodLine(lines[i], mapping);
      } else {
        assert AllGood(pre, mapping);
        ScanStepFails(ScanOf(pre, mapping).value, lines[n], mapping);
        if ScanOf(lines, mapping).Failure? {
          assert pre == lines[..n];
          assert !GoodLine(lines[n], mapping);
        } else {
          assert forall j :: 0 <= j < n ==> pre[j] == lines[j];
        }
      }
    }
  }

  /** A bad line followed by a line too short to index: the scan returns the bad line's
      error and never reads the short line. */
  lemma ShortLineAfterBadLine(g: OfficeGroup)
    ensures var m: Mapping := map["OFF" := [g]];
      var lines: seq<Line> := [["1.2.3.0", "", "", "", "", "OFF", "", "x"], ["short"]];
      && ReadableUntilBad(lines, m) && !AllReadable(lines, m)
      && ScanOf(lines, m) == Failure(NumError("x"))
  {
    var m: Mapping := map["OFF" := [g]];
    var l1: Line := ["1.2.3.0", "", "", "", "", "OFF", "", "x"];
    var lines: seq<Line> := [l1, ["short"]];
    assert !AllDigits("x");
    assert BadLine(l1, m);
    assert lines[..1] == [l1];
    assert lines[..0] == [];
    assert ScanOf(lines[..1], m) == Failure(NumError("x")) by {
      assert ScanOf([], m) == Success(Scan([], 0, 0, map[]));
      LineRecordsFails(l1, [g]);
    }
    FailedPrefixReadable(lines, 2, m);
    ScanFailureSticks(lines, 1, m);
    assert lines[..2] == lines;
  }

  /** A scan that succeeds has read every line as ScanMeans says. */
  lemma {:induction false} ScanSucceedsMeaning(lines: seq<Line>, mapping: Mapping)
    requires AllReadable(lines, mapping) && ScanOf(lines, mapping).Success?
    ensures ScanMeans(lines, mapping, ScanOf(lines, mapping).value)
    decreases |lines|
  {
    if lines == [] {
      assert InvalidLines(lines, mapping) == {};
    } else {
      var n := |lines| - 1;
      var pre := lines[..n];
      assert forall j :: 0 <= j < n ==> pre[j] == lines[j];
      ReadableUntilBadPrefix(lines, n, mapping);
      ScanSucceedsMeaning(pre, mapping);
      ScanMeansStep(lines, mapping, ScanOf(pre, mapping).value);
    }
  }

  /** Each line held records only if it was mapped; a mapped line holds one record per
      mapping entry for its office code. */
  lemma RecordsOfValid(lines: seq<Line>, mapping: Mapping)
    requires AllReadable(lines, mapping)
    ensures AllValid(RecordsOf(lines, mapping))
    decreases |lines|
  {
    if lines != [] {
      var line := lines[|lines| - 1];
      var pre := lines[..|lines| - 1];
      assert forall j :: 0 <= j < |pre| ==> pre[j] == lines[j];
      RecordsOfValid(pre, mapping);
      if Mapped(line, mapping) && LineRecords(line, mapping[line[5]]).Success? {
        LineRecordsValues(line, mapping[line[5]]);
        var rs := LineRecords(line, mapping[line[5]]).value;
        assert forall j :: 0 <= j < |rs| ==> ValidBlock(rs[j].block);
      }
    }
  }

  // ---------------------------------------------------------------------------
  // The run loop as written

  /** The importer's run loop: the same as CollectLoop while records remain, but when they
      are used up the run still in `set` is neither summed nor appended to resultSet. */
  function DroppedLoop(s: seq<Record>, i: nat, run: seq<Record>, acc: seq<Record>): seq<Record>
    decreases |s| - i
  {
    if i >= |s| then acc
    else if IsCont(run, s[i]) then DroppedLoop(s, i + 1, run + [s[i]], acc)
    else DroppedLoop(s, i + 1, [s[i]], acc + SumSpec(run))
  }

  /** resultSet after the importer's run loop. */
  function RunsSummedAsWritten(s: seq<Record>): seq<Record>
  {
    DroppedLoop(s, 0, [], [])
  }

  /** The run left in `set` when the loop ends. */
  function FinalRun(s: seq<Record>, i: nat, run: seq<Record>): seq<Record>
    decreases |s| - i
  {
    if i >= |s| then run
    else if IsCont(run, s[i]) then FinalRun(s, i + 1, run + [s[i]])
    else FinalRun(s, i + 1, [s[i]])
  }

  /** The loop with the last set is the loop without it followed by the summed final run. */
  lemma {:induction false} CollectLoopSplits(s: seq<Record>, i: nat, run: seq<Record>, acc: seq<Record>)
    ensures CollectLoop(s, i, run, acc) == DroppedLoop(s, i, run, acc) + SumSpec(FinalRun(s, i, run))
    decreases |s| - i
  {
    if i < |s| {
      if IsCont(run, s[i]) {
        CollectLoopSplits(s, i + 1, run + [s[i]], acc);
      } else {
        CollectLoopSplits(s, i + 1, [s[i]], acc + SumSpec(run));
      }
    }
  }

  lemma {:induction false} FinalRunNonEmpty(s: seq<Record>, i: nat, run: seq<Record>)
    requires i < |s| || run != []
    ensures FinalRun(s, i, run) != []
    decreases |s| - i
  {
    if i < |s| {
      if IsCont(run, s[i]) {
        FinalRunNonEmpty(s, i + 1, run + [s[i]]);
      } else {
        FinalRunNonEmpty(s, i + 1, [s[i]]);
      }
    }
  }

  /** As written, the importer loses the merged records of the last run: resultSet is
      exactly the library's result with that run's records cut off the end, and for any
      record at all there is at least one of them. */
  lemma FinalRunDropped(s: seq<Record>)
    requires |s| > 0
    ensures RunsSummed(s) == RunsSummedAsWritten(s) + SumSpec(FinalRun(s, 0, []))
    ensures |SumSpec(FinalRun(s, 0, []))| > 0
    ensures |RunsSummedAsWritten(s)| < |RunsSummed(s)|
  {
    CollectLoopSplits(s, 0, [], []);
    FinalRunNonEmpty(s, 0, []);
    SumNonEmpty(FinalRun(s, 0, []));
  }

  /** A file that yields a single record imports nothing. */
  lemma OneRecordLost(r: Record)
    ensures RunsSummedAsWritten([r]) == []
    ensures RunsSummed([r]) == [r]
  {
    var s := [r];
    assert IsCont([], s[0]);
    assert [] + [s[0]] == [r];
    assert DroppedLoop(s, 0, [], []) == DroppedLoop(s, 1, [r], []);
    assert CollectLoop(s, 0, [], []) == CollectLoop(s, 1, [r], []);
    SumShort([r]);
  }

  /** The importer's run loop as written, over sorted records. */
  method CollectRunsAsWritten(recs: seq<Record>) returns (resultSet: seq<Record>)
    requires Sorted(recs) && AllValid(recs) && WholeBlocksAlone(recs)
    ensures resultSet == RunsSummedAsWritten(recs)
  {
    var contSet := new ContSet();
    resultSet := [];
    var i := 0;
    while i < |recs|
      invariant 0 <= i <= |recs|
      invariant RunInv(recs, i, contSet.elems)
      invariant DroppedLoop(recs, i, contSet.elems, resultSet) == RunsSummedAsWritten(recs)
    {
      var rec := recs[i];
      ghost var run := contSet.elems;
      if IsCont(contSet.elems, rec) {
        RunExtend(recs, i, run);
        contSet.Add(rec);
        assert DroppedLoop(recs, i + 1, contSet.elems, resultSet) == RunsSummedAsWritten(recs);
      } else {
        contSet.Sum();
        resultSet := resultSet + contSet.elems;
        contSet.Clear();
        contSet.Add(rec);
        RunStart(recs, i);
        assert contSet.elems == [rec];
        assert DroppedLoop(recs, i + 1, contSet.elems, resultSet) == RunsSummedAsWritten(recs);
      }
      i := i + 1;
    }
  }

  // ---------------------------------------------------------------------------
  // getIPMSRecords

  /** What the importer's grouping loop reads of a merged record: its ServiceCode, its
      RegionID (the glbId field) and its CIDR text. */
  function CidrItems(s: seq<Record>): (items: seq<Item<Cidr>>)
    ensures |items| == |s|
    ensures forall i :: 0 <= i < |s| ==> items[i] == Item(s[i].serviceCode, s[i].glbId, s[i].cidr)
  {
    seq(|s|, i requires 0 <= i < |s| => Item(s[i].serviceCode, s[i].glbId, s[i].cidr))
  }

  lemma CidrItemsFirstOk(s: seq<Record>)
    requires Sorted(s) && (|s| > 0 ==> s[0].serviceCode != "" && s[0].glbId != "")
    ensures FirstOk(CidrItems(RunsSummed(s)))
  {
    if |s| > 0 {
      RunsSummedHead(s);
    }
  }

  /** The merged, grouped result lists the CIDRs of the merged records, each once and in
      order. */
  lemma ImportedCidrs(s: seq<Record>)
    requires FirstOk(CidrItems(s))
    ensures Flatten(Grouped(CidrItems(s))) == seq(|s|, i requires 0 <= i < |s| => s[i].cidr)
  {
    GroupFlatten(CidrItems(s));
  }

  /** The scanned records of a successful scan. */
  function ScannedRecords(lines: seq<Line>, mapping: Mapping): seq<Record>
    requires ReadableUntilBad(lines, mapping) && ScanOf(lines, mapping).Success?
  {
    ScanOf(lines, mapping).value.recs
  }

  /** getIPMSRecords after the file is read: the scan, the sort, the run loop and the
      grouping. The run loop is the corrected one, which sums and keeps the last run as the
      library version does (CollectRunsAsWritten is the loop as written). */
  method GetIPMSRecords(lines: seq<Line>, mapping: Mapping)
    returns (r: Result<seq<ServiceInfo<Cidr>>, NumError>)
    requires ReadableUntilBad(lines, mapping)
    requires ScanOf(lines, mapping).Success? ==>
      WholeBlocksAlone(ScannedRecords(lines, mapping)) && FirstSortedHasKeys(ScannedRecords(lines, mapping))
    ensures r.Failure? <==> ScanOf(lines, mapping).Failure?
    ensures r.Failure? ==> r.error == ScanOf(lines, mapping).error
    ensures r.Success? ==> FirstOk(CidrItems(RunsSummed(SortRecords(ScannedRecords(lines, mapping)))))
    ensures r.Success? ==> r.value == Grouped(CidrItems(RunsSummed(SortRecords(ScannedRecords(lines, mapping)))))
  {
    var scan := ScanLines(lines, mapping);
    if scan.Failure? {
      return Failure(scan.error);
    }
    var recs := scan.value.recs;
    assert AllReadable(lines, mapping);
    ScanSucceedsMeaning(lines, mapping);
    RecordsOfValid(lines, mapping);
    var sorted := SortRecords(recs);
    SortKeepsRequirements(recs);
    var resultSet := CollectRuns(sorted);
    CidrItemsFirstOk(sorted);
    var infos := Group(CidrItems(resultSet));
    return Success(infos);
  }
}
