/**
 * The pieces of Ruby's String, Integer and Array behaviour that the
 * downloader and the boot sequencer depend on, written out exactly:
 * `String#split` with a literal separator (which drops trailing empty
 * fields), `Integer#to_s` in base 10 and `Array#join`.
 */
module RubyText {
  import opened Common

  /** `sep` occurs in `s` starting at position `j`. */
  predicate OccursAt(s: string, sep: string, j: nat)
  {
    j + |sep| <= |s| && s[j..j + |sep|] == sep
  }

  /** The first position at or after `from` where `sep` occurs in `s`. */
  function IndexFrom(s: string, sep: string, from: nat): (r: Option<nat>)
    requires |sep| > 0
    ensures r.Some? ==> from <= r.value && OccursAt(s, sep, r.value)
    ensures r.Some? ==> forall j :: from <= j < r.value ==> !OccursAt(s, sep, j)
    ensures r.None? ==> forall j :: from <= j ==> !OccursAt(s, sep, j)
    decreases |s| - from
  {
    if from + |sep| > |s| then None
    else if s[from..from + |sep|] == sep then Some(from)
    else IndexFrom(s, sep, from + 1)
  }

  /** The first position where `sep` occurs in `s`, nil when it does not occur. */
  function IndexOf(s: string, sep: string): (r: Option<nat>)
    requires |sep| > 0
    ensures r.Some? ==> OccursAt(s, sep, r.value)
    ensures r.Some? ==> forall j :: 0 <= j < r.value ==> !OccursAt(s, sep, j)
    ensures r.None? ==> forall j :: 0 <= j ==> !OccursAt(s, sep, j)
  {
    IndexFrom(s, sep, 0)
  }

  /** The text of `s` before the first occurrence of `sep` (all of `s` when there is none). */
  function Before(s: string, sep: string): (r: string)
    requires |sep| > 0
    ensures r <= s
    ensures |r| == |s| || OccursAt(s, sep, |r|)
    ensures forall j :: 0 <= j < |r| ==> !OccursAt(s, sep, j)
  {
    match IndexOf(s, sep)
    case None => s
    case Some(i) => s[..i]
  }

  /**
   * Every field of `s` cut at each occurrence of `sep`, empty fields included:
   * the raw list before Ruby removes the trailing empty ones.
   */
  function Fields(s: string, sep: string): (r: seq<string>)
    requires |sep| > 0
    ensures |r| >= 1 && r[0] == Before(s, sep)
    decreases |s|
  {
    match IndexOf(s, sep)
    case None => [s]
    case Some(i) => [s[..i]] + Fields(s[i + |sep|..], sep)
  }

  /** Ruby's removal of trailing empty fields from the result of `split` (limit 0). */
  function DropTrailingEmpty(xs: seq<string>): (r: seq<string>)
    ensures |r| <= |xs| && r == xs[..|r|]
    ensures |r| == 0 || r[|r| - 1] != []
    ensures forall j :: |r| <= j < |xs| ==> xs[j] == []
  {
    if xs == [] then []
    else if xs[|xs| - 1] == [] then DropTrailingEmpty(xs[..|xs| - 1])
    else xs
  }

  /** Ruby's `s.split(sep)` for a literal separator other than a single space. */
  function Split(s: string, sep: string): seq<string>
    requires |sep| > 0
  {
    DropTrailingEmpty(Fields(s, sep))
  }

  /** Cutting at the first occurrence leaves the fields of the rest. */
  lemma FieldsTail(s: string, sep: string, i: nat)
    requires |sep| > 0 && IndexOf(s, sep) == Some(i)
    ensures Fields(s, sep) == [s[..i]] + Fields(s[i + |sep|..], sep)
  {
  }

  /** With no occurrence of `sep`, `s` is its own single field. */
  lemma FieldsNone(s: string, sep: string)
    requires |sep| > 0 && IndexOf(s, sep).None?
    ensures Fields(s, sep) == [s]
  {
  }

  /** A one-character separator occurs exactly where that character stands. */
  lemma OccursAtChar(s: string, c: char, j: nat)
    ensures OccursAt(s, [c], j) <==> j < |s| && s[j] == c
  {
    if j < |s| {
      assert s[j..j + 1] == [s[j]];
    }
  }

  /**
   * Splitting on a one-character separator yields only empty fields exactly
   * when `s` consists of that character alone (the empty string included).
   */
  lemma {:induction false} FieldsAllEmptyChar(s: string, c: char)
    ensures (forall j :: 0 <= j < |Fields(s, [c])| ==> Fields(s, [c])[j] == [])
        <==> (forall i :: 0 <= i < |s| ==> s[i] == c)
    decreases |s|
  {
    var f := Fields(s, [c]);
    match IndexOf(s, [c])
    case None =>
      FieldsNone(s, [c]);
      if s != [] {
        OccursAtChar(s, c, 0);
      }
    case Some(i) =>
      FieldsTail(s, [c], i);
      var rest := s[i + 1..];
      FieldsAllEmptyChar(rest, c);
      var g := Fields(rest, [c]);
      assert f == [s[..i]] + g;
      if i > 0 {
        OccursAtChar(s, c, 0);
        assert f[0] != [];
        assert s[0] != c;
      } else {
        assert f[0] == [];
        OccursAtChar(s, c, 0);
        assert s[0] == c;
        assert (forall j :: 0 <= j < |f| ==> f[j] == []) <==> (forall j :: 0 <= j < |g| ==> g[j] == []) by {
          forall j | 0 <= j < |g| ensures f[j + 1] == g[j] { }
        }
        assert (forall k :: 0 <= k < |s| ==> s[k] == c) <==> (forall k :: 0 <= k < |rest| ==> rest[k] == c) by {
          forall k | 0 <= k < |rest| ensures rest[k] == s[k + 1] { }
        }
      }
  }

  /** The value of a string of decimal digits (the empty string reads as 0). */
  function DecimalValue(s: string): (n: nat)
    requires forall i :: 0 <= i < |s| ==> '0' <= s[i] <= '9'
  {
    if s == [] then 0
    else 10 * DecimalValue(s[..|s| - 1]) + (s[|s| - 1] - '0') as nat
  }

  /** The decimal digits of `n`, most significant first, as `Integer#to_s` writes them. */
  function NatToString(n: nat): (r: string)
    ensures |r| >= 1
    ensures forall i :: 0 <= i < |r| ==> '0' <= r[i] <= '9'
  {
    if n < 10 then [('0' as int + n) as char]
    else NatToString(n / 10) + [('0' as int + n % 10) as char]
  }

  /** `Integer#to_s`: a minus sign before the digits of a negative number. */
  function IntToString(i: int): string
  {
    if i < 0 then "-" + NatToString(-i) else NatToString(i)
  }

  /** Reads back the text `IntToString` writes. */
  function ReadInt(s: string): int
  {
    if |s| > 0 && s[0] == '-' && (forall i :: 1 <= i < |s| ==> '0' <= s[i] <= '9') then 0 - DecimalValue(s[1..]) as int
    else if forall i :: 0 <= i < |s| ==> '0' <= s[i] <= '9' then DecimalValue(s)
    else 0
  }

  /** The digits written for `n` read back as `n`, and only 0 is written with a leading zero. */
  lemma {:induction false} NatToStringRoundTrip(n: nat)
    ensures DecimalValue(NatToString(n)) == n
    ensures NatToString(n)[0] == '0' ==> n == 0
  {
    if n >= 10 {
      NatToStringRoundTrip(n / 10);
      var r := NatToString(n);
      assert r[..|r| - 1] == NatToString(n / 10);
    }
  }

  /** Every integer written by `IntToString` reads back as itself. */
  lemma IntToStringRoundTrip(i: int)
    ensures ReadInt(IntToString(i)) == i
  {
    var s := IntToString(i);
    if i < 0 {
      var d := NatToString(-i);
      NatToStringRoundTrip(-i);
      assert s == "-" + d && s[1..] == d;
      assert forall k :: 1 <= k < |s| ==> '0' <= s[k] <= '9' by {
        forall k | 1 <= k < |s| ensures '0' <= s[k] <= '9' { assert s[k] == d[k - 1]; }
      }
    } else {
      NatToStringRoundTrip(i);
      assert s[0] != '-';
    }
  }

  /** Ruby's `Array#join(sep)`. */
  function Join(xs: seq<string>, sep: string): string
  {
    if |xs| == 0 then ""
    else if |xs| == 1 then xs[0]
    else xs[0] + sep + Join(xs[1..], sep)
  }
}
