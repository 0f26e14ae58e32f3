/** The string handling the record engine relies on from Go's standard library:
    the `<` order on strings, `strconv.Atoi` and its `%d` inverse, and the
    dotted-decimal text form of an IPv4 address (`net.ParseIP` / `net.IP.String`). */
module Text {
  import opened Wrappers

  /** Go's `<` on strings: lexicographic order on the bytes. Strings are modelled as
      sequences of Unicode scalar values; on UTF-8 text the byte order agrees with the
      code-point order, so comparing chars is the same order. Text that is not UTF-8 is
      not modelled. */
  predicate StrLess(a: string, b: string)
    decreases |a|
  {
    if a == [] then b != []
    else if b == [] then false
    else if a[0] != b[0] then a[0] < b[0]
    else StrLess(a[1..], b[1..])
  }

  lemma {:induction false} StrLessIrreflexive(a: string)
    ensures !StrLess(a, a)
    decreases |a|
  {
    if a != [] {
      StrLessIrreflexive(a[1..]);
    }
  }

  lemma {:induction false} StrLessTransitive(a: string, b: string, c: string)
    requires StrLess(a, b) && StrLess(b, c)
    ensures StrLess(a, c)
    decreases |a|
  {
    if a != [] && b != [] && c != [] && a[0] == b[0] && b[0] == c[0] {
      StrLessTransitive(a[1..], b[1..], c[1..]);
    }
  }

  /** Any two different strings are ordered one way or the other. */
  lemma {:induction false} StrLessTotal(a: string, b: string)
    ensures a == b || StrLess(a, b) || StrLess(b, a)
    decreases |a|
  {
    if a != [] && b != [] && a[0] == b[0] {
      StrLessTotal(a[1..], b[1..]);
      if a[1..] == b[1..] {
        assert a == [a[0]] + a[1..] && b == [b[0]] + b[1..];
      }
    }
  }

  // ---------------------------------------------------------------------------
  // Decimal integers: strconv.Atoi and the `%d` verb

  predicate IsDigit(c: char) { '0' <= c <= '9' }

  predicate AllDigits(s: string) { forall i :: 0 <= i < |s| ==> IsDigit(s[i]) }

  function DigitValue(c: char): nat
    requires IsDigit(c)
  {
    c as int - '0' as int
  }

  function DigitChar(d: nat): (c: char)
    requires d < 10
    ensures IsDigit(c) && DigitValue(c) == d
  {
    ('0' as int + d) as char
  }

  /** The value of a run of decimal digits, most significant first. */
  function DigitsValue(s: string): nat
    requires AllDigits(s)
    decreases |s|
  {
    if s == [] then 0 else 10 * DigitsValue(s[..|s| - 1]) + DigitValue(s[|s| - 1])
  }

  /** Go's `int` is 64 bits wide here; Atoi reports values outside it as an error. */
  const MinInt: int := -0x8000_0000_0000_0000
  const MaxInt: int := 0x7fff_ffff_ffff_ffff

  /** The `*strconv.NumError` Atoi returns; it names the text that failed. strconv's cause
      (ErrSyntax for text that is not an integer, ErrRange for one outside 64 bits) is not
      kept, since the getters hand the error back unchanged without looking at it. */
  datatype NumError = NumError(num: string)

  /** The text Atoi accepts: an optional sign and at least one decimal digit. */
  predicate IsIntegerText(s: string)
  {
    var body := if |s| > 0 && (s[0] == '+' || s[0] == '-') then s[1..] else s;
    body != [] && AllDigits(body)
  }

  /** strconv.Atoi: an optional '+' or '-', then decimal digits, within 64 bits. */
  function Atoi(s: string): (r: Result<int, NumError>)
    ensures r.Success? ==> IsIntegerText(s) && MinInt <= r.value <= MaxInt
    ensures !IsIntegerText(s) ==> r == Failure(NumError(s))
    ensures r.Failure? ==> r.error == NumError(s)
  {
    var signed := |s| > 0 && (s[0] == '+' || s[0] == '-');
    var body := if signed then s[1..] else s;
    if body == [] || !AllDigits(body) then Failure(NumError(s))
    else
      var d: int := DigitsValue(body);
      var v := if signed && s[0] == '-' then -d else d;
      if v < MinInt || v > MaxInt then Failure(NumError(s)) else Success(v)
  }

  /** `fmt.Sprintf("%d", n)` for a non-negative n. */
  function Decimal(n: nat): (r: string)
    ensures |r| > 0 && AllDigits(r)
    decreases n
  {
    if n < 10 then [DigitChar(n)] else Decimal(n / 10) + [DigitChar(n % 10)]
  }

  lemma {:induction false} DecimalValue(n: nat)
    ensures DigitsValue(Decimal(n)) == n
    decreases n
  {
    if n >= 10 {
      DecimalValue(n / 10);
      var r := Decimal(n);
      assert r[..|r| - 1] == Decimal(n / 10);
    }
  }

  /** Decimal writes no leading zero and uses as few digits as the value needs. */
  lemma {:induction false} DecimalShape(n: nat)
    ensures n >= 10 ==> Decimal(n)[0] != '0'
    ensures n < 10 ==> |Decimal(n)| == 1
    ensures n < 100 ==> |Decimal(n)| <= 2
    ensures n < 1000 ==> |Decimal(n)| <= 3
    decreases n
  {
    if n >= 10 {
      DecimalShape(n / 10);
    }
  }

  /** Atoi reads back what `%d` writes. */
  lemma AtoiDecimal(n: nat)
    requires n <= MaxInt
    ensures Atoi(Decimal(n)) == Success(n)
  {
    DecimalValue(n);
    var s := Decimal(n);
    assert IsDigit(s[0]);
  }

  // ---------------------------------------------------------------------------
  // Dotted-decimal IPv4 text

  /** strings.Split(s, "."). */
  function SplitDots(s: string): (parts: seq<string>)
    ensures |parts| >= 1
    decreases |s|
  {
    if s == [] then [""]
    else
      var rest := SplitDots(s[1..]);
      if s[0] == '.' then [""] + rest else [[s[0]] + rest[0]] + rest[1..]
  }

  predicate NoDot(s: string) { forall i :: 0 <= i < |s| ==> s[i] != '.' }

  lemma {:induction false} SplitDotsJoin(x: string, y: string)
    requires NoDot(x)
    ensures SplitDots(x + "." + y) == [x] + SplitDots(y)
    decreases |x|
  {
    if x == [] {
      assert x + "." + y == ['.'] + y;
      assert (['.'] + y)[1..] == y;
    } else {
      SplitDotsJoin(x[1..], y);
      assert (x + "." + y)[1..] == x[1..] + "." + y;
      assert [x[0]] + x[1..] == x;
    }
  }

  lemma {:induction false} SplitDotsSingle(x: string)
    requires NoDot(x)
    ensures SplitDots(x) == [x]
    decreases |x|
  {
    if x != [] {
      SplitDotsSingle(x[1..]);
      assert [x[0]] + x[1..] == x;
    }
  }

  /** One octet as the Go IPv4 parser accepts it: one to three digits, no leading zero,
      at most 255. */
  function ParseOctet(t: string): (r: Option<nat>)
    ensures r.Some? ==> r.value < 256
  {
    if 1 <= |t| <= 3 && AllDigits(t) && (|t| == 1 || t[0] != '0') && DigitsValue(t) < 256
    then Some(DigitsValue(t)) else None
  }

  /** The dotted-decimal form of an IPv4 address: four octets separated by dots. */
  function ParseIPv4(s: string): (r: Option<nat>)
    ensures r.Some? ==> r.value < 0x1_0000_0000
  {
    var parts := SplitDots(s);
    if |parts| != 4 then None
    else
      var a, b, c, d := ParseOctet(parts[0]), ParseOctet(parts[1]), ParseOctet(parts[2]), ParseOctet(parts[3]);
      if a.Some? && b.Some? && c.Some? && d.Some?
      then Some(((a.value * 256 + b.value) * 256 + c.value) * 256 + d.value)
      else None
  }

  /** `net.IP.String()` of a 4-byte address. */
  function FormatIPv4(n: nat): string
    requires n < 0x1_0000_0000
  {
    Decimal(n / 0x100_0000) + "." + Decimal(n / 0x1_0000 % 256) + "."
      + Decimal(n / 0x100 % 256) + "." + Decimal(n % 256)
  }

  lemma ParseOctetDecimal(k: nat)
    requires k < 256
    ensures ParseOctet(Decimal(k)) == Some(k)
  {
    DecimalShape(k);
    DecimalValue(k);
  }

  lemma DecimalNoDot(n: nat)
    ensures NoDot(Decimal(n))
  {
    var s := Decimal(n);
    assert forall i :: 0 <= i < |s| ==> IsDigit(s[i]);
  }

  lemma OctetsRecombine(n: nat)
    requires n < 0x1_0000_0000
    ensures n / 0x100_0000 < 256
    ensures ((n / 0x100_0000 * 256 + n / 0x1_0000 % 256) * 256 + n / 0x100 % 256) * 256 + n % 256 == n
  {
    var q1 := n / 256;
    var q2 := q1 / 256;
    var q3 := q2 / 256;
    assert n == q1 * 256 + n % 256;
    assert q1 == q2 * 256 + q1 % 256;
    assert q2 == q3 * 256 + q2 % 256;
    assert q2 == n / 0x1_0000;
    assert q3 == n / 0x100_0000;
  }

  lemma SplitFour(a: string, b: string, c: string, d: string)
    requires NoDot(a) && NoDot(b) && NoDot(c) && NoDot(d)
    ensures SplitDots(a + "." + b + "." + c + "." + d) == [a, b, c, d]
  {
    var cd := c + "." + d;
    var bcd := b + "." + cd;
    SplitDotsSingle(d);
    SplitDotsJoin(c, d);
    SplitDotsJoin(b, cd);
    SplitDotsJoin(a, bcd);
    DotAssoc(a + "." + b, c, d);
    DotAssoc(a, b, cd);
  }

  lemma DotAssoc(x: string, y: string, z: string)
    ensures x + "." + y + "." + z == x + "." + (y + "." + z)
  {
  }

  /** Four octet texts joined by dots parse to the address they make up. */
  lemma ParseJoinedOctets(ta: string, tb: string, tc: string, td: string, a: nat, b: nat, c: nat, d: nat)
    requires NoDot(ta) && NoDot(tb) && NoDot(tc) && NoDot(td)
    requires ParseOctet(ta) == Some(a) && ParseOctet(tb) == Some(b)
    requires ParseOctet(tc) == Some(c) && ParseOctet(td) == Some(d)
    ensures ParseIPv4(ta + "." + tb + "." + tc + "." + td) == Some(((a * 256 + b) * 256 + c) * 256 + d)
  {
    SplitFour(ta, tb, tc, td);
  }

  /** Four printed octets joined by dots parse back to the address they make up. */
  lemma ParseFourOctets(a: nat, b: nat, c: nat, d: nat)
    requires a < 256 && b < 256 && c < 256 && d < 256
    ensures ParseIPv4(Decimal(a) + "." + Decimal(b) + "." + Decimal(c) + "." + Decimal(d))
         == Some(((a * 256 + b) * 256 + c) * 256 + d)
  {
    DecimalNoDot(a);
    DecimalNoDot(b);
    DecimalNoDot(c);
    DecimalNoDot(d);
    ParseOctetDecimal(a);
    ParseOctetDecimal(b);
    ParseOctetDecimal(c);
    ParseOctetDecimal(d);
    ParseJoinedOctets(Decimal(a), Decimal(b), Decimal(c), Decimal(d), a, b, c, d);
  }

  /** Parsing the printed form of an address gives the address back. */
  lemma ParseFormatIPv4(n: nat)
    requires n < 0x1_0000_0000
    ensures ParseIPv4(FormatIPv4(n)) == Some(n)
  {
    OctetsRecombine(n);
    ParseFourOctets(n / 0x100_0000, n / 0x1_0000 % 256, n / 0x100 % 256, n % 256);
  }

  /** Two addresses print alike only when they are equal, so the source's comparisons of
      `String()` forms are comparisons of the 32-bit values. */
  lemma FormatIPv4Injective(m: nat, n: nat)
    requires m < 0x1_0000_0000 && n < 0x1_0000_0000
    ensures FormatIPv4(m) == FormatIPv4(n) <==> m == n
  {
    ParseFormatIPv4(m);
    ParseFormatIPv4(n);
  }

  /** strings.Join(parts, "."), the inverse of SplitDots. */
  function JoinDots(parts: seq<string>): string
    requires |parts| >= 1
  {
    if |parts| == 1 then parts[0] else parts[0] + "." + JoinDots(parts[1..])
  }

  /** Splitting at the dots and joining with dots gives the text back. */
  lemma {:induction false} JoinSplitDots(s: string)
    ensures JoinDots(SplitDots(s)) == s
    decreases |s|
  {
    if s != [] {
      var rest := SplitDots(s[1..]);
      JoinSplitDots(s[1..]);
      if s[0] == '.' {
        assert ([""] + rest)[1..] == rest;
        assert "" + "." + s[1..] == s;
      } else if |rest| == 1 {
        assert [s[0]] + s[1..] == s;
      } else {
        var parts := [[s[0]] + rest[0]] + rest[1..];
        assert parts[1..] == rest[1..];
        assert JoinDots(rest) == rest[0] + "." + JoinDots(rest[1..]);
        assert [s[0]] + rest[0] + "." + JoinDots(rest[1..]) == [s[0]] + (rest[0] + "." + JoinDots(rest[1..]));
        assert [s[0]] + s[1..] == s;
      }
    }
  }

  /** A digit run without a leading zero is the printed form of its value. */
  lemma {:induction false} DecimalOfDigits(t: string)
    requires t != [] && AllDigits(t) && (|t| == 1 || t[0] != '0')
    ensures t[0] != '0' ==> DigitsValue(t) > 0
    ensures Decimal(DigitsValue(t)) == t
    decreases |t|
  {
    var n := |t| - 1;
    var last := t[n];
    assert DigitChar(DigitValue(last)) == last;
    if n == 0 {
      assert t[..0] == [];
      assert [last] == t;
    } else {
      var init := t[..n];
      assert init[0] == t[0];
      assert AllDigits(init) by {
        assert forall i :: 0 <= i < |init| ==> init[i] == t[i];
      }
      DecimalOfDigits(init);
      var v := DigitsValue(t);
      assert v == 10 * DigitsValue(init) + DigitValue(last);
      assert v / 10 == DigitsValue(init) && v % 10 == DigitValue(last);
      assert init + [last] == t;
    }
  }

  /** The four octets of an address are the ones it was made up from. */
  lemma OctetsOf(n: nat, a: nat, b: nat, c: nat, d: nat)
    requires a < 256 && b < 256 && c < 256 && d < 256
    requires n == ((a * 256 + b) * 256 + c) * 256 + d
    ensures n / 0x100_0000 == a && n / 0x1_0000 % 256 == b && n / 0x100 % 256 == c && n % 256 == d
  {
    var ab := a * 256 + b;
    var abc := ab * 256 + c;
    assert n / 0x100 == abc && n % 256 == d;
    assert abc % 256 == c;
    assert n == ab * 0x1_0000 + (c * 256 + d);
    assert n / 0x1_0000 == ab;
    assert ab % 256 == b;
    assert n == a * 0x100_0000 + (b * 0x1_0000 + c * 256 + d);
  }

  /** An octet ParseOctet accepts is the printed form of its value. */
  lemma OctetCanonical(t: string)
    requires ParseOctet(t).Some?
    ensures Decimal(ParseOctet(t).value) == t
  {
    DecimalOfDigits(t);
  }

  lemma JoinFour(p: seq<string>)
    requires |p| == 4
    ensures JoinDots(p) == p[0] + "." + p[1] + "." + p[2] + "." + p[3]
  {
    var p1, p2, p3 := p[1..], p[2..], p[3..];
    assert p1[1..] == p2 && p2[1..] == p3 && p3 == [p[3]];
    assert JoinDots(p2) == p[2] + "." + p[3];
    assert JoinDots(p1) == p[1] + "." + (p[2] + "." + p[3]);
    DotAssoc(p[0] + "." + p[1], p[2], p[3]);
    DotAssoc(p[0], p[1], p[2] + "." + p[3]);
  }

  /** Only the printed form of an address parses: a text ParseIPv4 accepts is FormatIPv4 of
      its value, so an address stands for exactly one dotted-decimal text. */
  lemma ParseIPv4Canonical(s: string)
    requires ParseIPv4(s).Some?
    ensures s == FormatIPv4(ParseIPv4(s).value)
  {
    var p := SplitDots(s);
    JoinSplitDots(s);
    JoinFour(p);
    OctetCanonical(p[0]);
    OctetCanonical(p[1]);
    OctetCanonical(p[2]);
    OctetCanonical(p[3]);
    var a, b, c, d := ParseOctet(p[0]).value, ParseOctet(p[1]).value, ParseOctet(p[2]).value, ParseOctet(p[3]).value;
    var n := ParseIPv4(s).value;
    OctetsOf(n, a, b, c, d);
    assert FormatIPv4(n) == Decimal(a) + "." + Decimal(b) + "." + Decimal(c) + "." + Decimal(d);
  }
}
