/**
 * The version ordering of the catalog: PostgreSQL's
 * `string_to_array(version, '.')::int[]`, i.e. split the version string on
 * '.', cast every component to a 4-byte integer, and compare the resulting
 * integer arrays lexicographically, a proper prefix sorting first.
 */
module VersionOrder {
  import opened Wrappers
  import opened Text

  /** The largest value a PostgreSQL `int` (int4) can hold. */
  const Int4Max := 2147483647

  /**
   * Splits `s` at every `sep`; consecutive separators give empty parts.
   * (For the empty string PostgreSQL returns an empty array, which
   * ParseVersion handles before splitting.)
   */
  function Split(s: string, sep: char): (parts: seq<string>)
    ensures |parts| > 0
  {
    if s == [] then [[]]
    else
      var rest := Split(s[1..], sep);
      if s[0] == sep then [[]] + rest else [[s[0]] + rest[0]] + rest[1..]
  }

  predicate IsDigit(c: char)
  {
    '0' <= c <= '9'
  }

  predicate AllDigits(s: string)
  {
    forall i :: 0 <= i < |s| ==> IsDigit(s[i])
  }

  /** The value of a string of decimal digits, most significant first. */
  function DecimalValue(s: string): nat
    requires AllDigits(s)
  {
    if s == [] then 0
    else DecimalValue(s[..|s| - 1]) * 10 + (s[|s| - 1] as int - '0' as int)
  }

  /**
   * The cast of one component to `int`: a non-empty run of digits whose value
   * fits an int4; anything else is an invalid integer and fails the query.
   */
  function ParseComponent(s: string): (r: Option<nat>)
    ensures r.Some? <==> s != [] && AllDigits(s) && DecimalValue(s) <= Int4Max
    ensures r.Some? ==> r.value == DecimalValue(s) && r.value <= Int4Max
  {
    if s != [] && AllDigits(s) && DecimalValue(s) <= Int4Max then Some(DecimalValue(s)) else None
  }

  /** Casts every part; fails as soon as one part is not an integer. */
  function ParseComponents(parts: seq<string>): (r: Option<seq<nat>>)
    ensures r.Some? <==> forall i :: 0 <= i < |parts| ==> ParseComponent(parts[i]).Some?
    ensures r.Some? ==> |r.value| == |parts|
    ensures r.Some? ==> forall i :: 0 <= i < |parts| ==> r.value[i] == ParseComponent(parts[i]).value
  {
    if parts == [] then Some([])
    else
      match (ParseComponent(parts[0]), ParseComponents(parts[1..]))
      case (Some(n), Some(ns)) => Some([n] + ns)
      case _ => None
  }

  /** The sort key of a version string, or None when PostgreSQL would reject the cast. */
  function ParseVersion(s: string): Option<seq<nat>>
  {
    if s == "" then Some([]) else ParseComponents(Split(s, '.'))
  }

  /** Lexicographic order on integer arrays; a proper prefix sorts first. */
  predicate LeqVersion(a: seq<nat>, b: seq<nat>)
  {
    if a == [] then true
    else if b == [] then false
    else if a[0] != b[0] then a[0] < b[0]
    else LeqVersion(a[1..], b[1..])
  }

  lemma {:induction false} LeqVersionTotal(a: seq<nat>, b: seq<nat>)
    ensures LeqVersion(a, b) || LeqVersion(b, a)
  {
    if a != [] && b != [] && a[0] == b[0] {
      LeqVersionTotal(a[1..], b[1..]);
    }
  }

  lemma {:induction false} LeqVersionTransitive(a: seq<nat>, b: seq<nat>, c: seq<nat>)
    requires LeqVersion(a, b) && LeqVersion(b, c)
    ensures LeqVersion(a, c)
  {
    if a != [] && b != [] && c != [] && a[0] == b[0] && b[0] == c[0] {
      LeqVersionTransitive(a[1..], b[1..], c[1..]);
    }
  }

  lemma {:induction false} LeqVersionAntisymmetric(a: seq<nat>, b: seq<nat>)
    requires LeqVersion(a, b) && LeqVersion(b, a)
    ensures a == b
  {
    if a != [] && b != [] {
      LeqVersionAntisymmetric(a[1..], b[1..]);
      assert a == [a[0]] + a[1..];
      assert b == [b[0]] + b[1..];
    }
  }

  /** A proper prefix sorts strictly before its extensions. */
  lemma {:induction false} ProperPrefixFirst(a: seq<nat>, b: seq<nat>)
    requires |a| < |b| && a == b[..|a|]
    ensures LeqVersion(a, b) && !LeqVersion(b, a)
  {
    if a != [] {
      assert a[1..] == b[1..][..|a| - 1];
      ProperPrefixFirst(a[1..], b[1..]);
    }
  }

  /** The first differing component decides, whatever follows it. */
  lemma {:induction false} FirstDifferenceDecides(a: seq<nat>, b: seq<nat>, k: nat)
    requires k < |a| && k < |b| && a[..k] == b[..k] && a[k] != b[k]
    ensures LeqVersion(a, b) <==> a[k] < b[k]
  {
    if k > 0 {
      assert a[1..][..k - 1] == a[..k][1..];
      assert b[1..][..k - 1] == b[..k][1..];
      assert a[0] == a[..k][0] == b[..k][0] == b[0];
      FirstDifferenceDecides(a[1..], b[1..], k - 1);
    }
  }

  // Formatting keys back into version strings, the inverse of ParseVersion.

  function DigitChar(d: nat): char
    requires d < 10
  {
    ('0' as int + d) as char
  }

  /** The canonical decimal spelling of `n`, without leading zeros. */
  function Decimal(n: nat): (s: string)
    ensures s != [] && AllDigits(s)
    decreases n
  {
    if n < 10 then [DigitChar(n)] else Decimal(n / 10) + [DigitChar(n % 10)]
  }

  lemma {:induction false} DecimalRoundTrip(n: nat)
    ensures DecimalValue(Decimal(n)) == n
  {
    if n >= 10 {
      DecimalRoundTrip(n / 10);
      var s := Decimal(n);
      assert s[..|s| - 1] == Decimal(n / 10);
    }
  }

  /** Joins the canonical spellings of the components with '.'. */
  function FormatVersion(k: seq<nat>): string
  {
    if k == [] then ""
    else if |k| == 1 then Decimal(k[0])
    else Decimal(k[0]) + "." + FormatVersion(k[1..])
  }

  lemma {:induction false} SplitWithoutSeparator(a: string, sep: char)
    requires sep !in a
    ensures Split(a, sep) == [a]
  {
    if a != [] {
      SplitWithoutSeparator(a[1..], sep);
      assert a == [a[0]] + a[1..];
    }
  }

  lemma {:induction false} SplitAtSeparator(a: string, sep: char, b: string)
    requires sep !in a
    ensures Split(a + [sep] + b, sep) == [a] + Split(b, sep)
  {
    if a == [] {
      assert a + [sep] + b == [sep] + b;
      assert ([sep] + b)[1..] == b;
    } else {
      SplitAtSeparator(a[1..], sep, b);
      assert (a + [sep] + b)[1..] == a[1..] + [sep] + b;
      assert a == [a[0]] + a[1..];
    }
  }

  lemma DigitsHaveNoDot(s: string)
    requires AllDigits(s)
    ensures '.' !in s
  {
  }

  /** Splitting a formatted key gives back the spelling of each component. */
  lemma {:induction false} SplitFormatted(k: seq<nat>)
    requires k != []
    ensures |Split(FormatVersion(k), '.')| == |k|
    ensures forall i :: 0 <= i < |k| ==> Split(FormatVersion(k), '.')[i] == Decimal(k[i])
  {
    DigitsHaveNoDot(Decimal(k[0]));
    if |k| == 1 {
      SplitWithoutSeparator(Decimal(k[0]), '.');
    } else {
      SplitFormatted(k[1..]);
      SplitAtSeparator(Decimal(k[0]), '.', FormatVersion(k[1..]));
      assert FormatVersion(k) == Decimal(k[0]) + ['.'] + FormatVersion(k[1..]);
    }
  }

  /** Parsing a formatted key gives the key back, for components that fit an int4. */
  lemma ParseFormatRoundTrip(k: seq<nat>)
    requires forall i :: 0 <= i < |k| ==> k[i] <= Int4Max
    ensures ParseVersion(FormatVersion(k)) == Some(k)
  {
    if k != [] {
      SplitFormatted(k);
      var parts := Split(FormatVersion(k), '.');
      assert FormatVersion(k) != "" by {
        if |k| == 1 { assert Decimal(k[0]) != []; }
      }
      forall i | 0 <= i < |k|
        ensures ParseComponent(parts[i]) == Some(k[i])
      {
        DecimalRoundTrip(k[i]);
      }
      var r := ParseComponents(parts);
      assert r.Some?;
      assert r.value == k;
    }
  }

  /** "1.9" < "1.10" < "2.0" as versions, although "1.10" sorts before "1.9" as text. */
  lemma NumericNotTextual()
    ensures ParseVersion("1.9") == Some([1, 9])
    ensures ParseVersion("1.10") == Some([1, 10])
    ensures ParseVersion("2.0") == Some([2, 0])
    ensures LeqVersion([1, 9], [1, 10]) && !LeqVersion([1, 10], [1, 9])
    ensures LeqVersion([1, 10], [2, 0]) && !LeqVersion([2, 0], [1, 10])
    ensures LeqString("1.10", "1.9") && !LeqString("1.9", "1.10")
  {
    assert FormatVersion([1, 9]) == "1.9";
    ParseFormatRoundTrip([1, 9]);
    assert Decimal(10) == "10";
    assert FormatVersion([1, 10]) == "1.10";
    ParseFormatRoundTrip([1, 10]);
    assert FormatVersion([2, 0]) == "2.0";
    ParseFormatRoundTrip([2, 0]);
  }

  /** A component that is not an integer makes the whole version malformed. */
  lemma MalformedExamples()
    ensures ParseVersion("1.x") == None
    ensures ParseVersion("1..2") == None
    ensures ParseVersion("1.") == None
  {
    assert !IsDigit('x');
    assert Split("1.x", '.')[1] == "x";
    assert Split("1..2", '.')[1] == "";
    assert Split("1.", '.')[1] == "";
  }
}
