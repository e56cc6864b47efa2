/**
 * String operations of Rust's standard library that the exporter relies on:
 * `str::replace`, `str::find`, and decimal formatting of integers (`{}` in
 * `format!`, and the zero-padded `%Y` / `%m` fields of chrono).
 */
module Strings {
  import opened Wrappers

  /** `pat` occurs in `s` starting at index `i`. */
  predicate OccursAt(s: string, pat: string, i: nat) {
    i + |pat| <= |s| && s[i..i + |pat|] == pat
  }

  /**
   * `s.replace(pat, rep)`: scans left to right and replaces every leftmost,
   * non-overlapping occurrence of `pat` by `rep`. An empty pattern matches
   * before every character and at the end, as in Rust.
   */
  function Replace(s: string, pat: string, rep: string): (r: string)
    decreases |s|
  {
    if pat == [] then
      if s == [] then rep else rep + [s[0]] + Replace(s[1..], pat, rep)
    else if |s| < |pat| then s
    else if s[..|pat|] == pat then rep + Replace(s[|pat|..], pat, rep)
    else [s[0]] + Replace(s[1..], pat, rep)
  }

  /** Replacing a pattern that does not occur leaves the text unchanged. */
  lemma {:induction false} ReplaceAbsent(s: string, pat: string, rep: string)
    requires pat != []
    requires forall i: nat :: !OccursAt(s, pat, i)
    ensures Replace(s, pat, rep) == s
    decreases |s|
  {
    if |s| >= |pat| {
      assert !OccursAt(s, pat, 0);
      forall i: nat ensures !OccursAt(s[1..], pat, i) {
        assert !OccursAt(s, pat, i + 1);
      }
      ReplaceAbsent(s[1..], pat, rep);
    }
  }

  /** Concatenation is associative. */
  lemma ConcatAssoc<T>(a: seq<T>, b: seq<T>, c: seq<T>)
    ensures (a + b) + c == a + (b + c)
  {
  }

  /** A concatenation splits back into its two parts. */
  lemma SplitAt(p: string, x: string)
    ensures (p + x)[..|p|] == p && (p + x)[|p|..] == x
  {
  }

  /** `pat` occurs in `s` at no position other than `k`. */
  ghost predicate OnlyAt(s: string, pat: string, k: nat) {
    forall i: nat :: i <= |s| && OccursAt(s, pat, i) ==> i == k
  }

  /** Replacement copies a prefix in which no occurrence starts and carries on after it. */
  lemma {:induction false} ReplaceSkip(s: string, pat: string, rep: string, k: nat)
    requires pat != [] && k <= |s|
    requires forall i: nat :: i < k ==> !OccursAt(s, pat, i)
    ensures Replace(s, pat, rep) == s[..k] + Replace(s[k..], pat, rep)
    decreases k
  {
    if k == 0 {
      assert s[..0] == [] && s[0..] == s;
    } else if |s| < |pat| {
      assert s[..k] + s[k..] == s;
    } else {
      assert !OccursAt(s, pat, 0);
      forall i: nat | i < k - 1
        ensures !OccursAt(s[1..], pat, i)
      {
        assert !OccursAt(s, pat, i + 1);
      }
      ReplaceSkip(s[1..], pat, rep, k - 1);
      ReplaceSkipOne(s, pat, rep, k);
    }
  }

  /** One character that starts no occurrence is copied, in front of the rest. */
  lemma ReplaceSkipOne(s: string, pat: string, rep: string, k: nat)
    requires pat != [] && 0 < k <= |s| && |pat| <= |s| && s[..|pat|] != pat
    requires Replace(s[1..], pat, rep) == s[1..][..k - 1] + Replace(s[1..][k - 1..], pat, rep)
    ensures Replace(s, pat, rep) == s[..k] + Replace(s[k..], pat, rep)
  {
    assert Replace(s, pat, rep) == [s[0]] + Replace(s[1..], pat, rep);
    assert s[1..][k - 1..] == s[k..];
    assert [s[0]] + s[1..][..k - 1] == s[..k];
    ConcatAssoc([s[0]], s[1..][..k - 1], Replace(s[k..], pat, rep));
  }

  /** `parts` with `sep` between each two neighbours. */
  function Join(parts: seq<string>, sep: string): string
    requires parts != []
    decreases |parts|
  {
    if |parts| == 1 then parts[0] else parts[0] + sep + Join(parts[1..], sep)
  }

  /**
   * `Join(parts, pat)` holds `pat` exactly at its joints, as the scan of
   * `Replace` sees them: in every part followed by `pat` the first occurrence
   * is the one that follows, and the last part holds none.
   */
  predicate SeparatedBy(parts: seq<string>, pat: string) {
    && parts != []
    && (forall k :: 0 <= k < |parts| - 1 ==> Find(parts[k] + pat, pat) == Some(|parts[k]|))
    && Find(parts[|parts| - 1], pat).None?
  }

  /** The first occurrence, when it follows `p`, is replaced and the scan goes on after it. */
  lemma ReplaceAfter(p: string, pat: string, rest: string, rep: string)
    requires pat != [] && Find(p + pat, pat) == Some(|p|)
    ensures Replace(p + pat + rest, pat, rep) == p + rep + Replace(rest, pat, rep)
  {
    var s := p + pat + rest;
    forall i: nat | i < |p|
      ensures !OccursAt(s, pat, i)
    {
      assert !OccursAt(p + pat, pat, i);
      assert s[i..i + |pat|] == (p + pat)[i..i + |pat|];
    }
    ReplaceSkip(s, pat, rep, |p|);
    var t := s[|p|..];
    assert s[..|p|] == p;
    assert t == pat + rest;
    assert t[..|pat|] == pat && t[|pat|..] == rest;
    ConcatAssoc(p, rep, Replace(rest, pat, rep));
  }

  /** `replace` rewrites every occurrence: a text joined by `pat` comes out joined by `rep`. */
  lemma {:induction false} ReplaceJoin(parts: seq<string>, pat: string, rep: string)
    requires pat != [] && SeparatedBy(parts, pat)
    ensures Replace(Join(parts, pat), pat, rep) == Join(parts, rep)
    decreases |parts|
  {
    if |parts| == 1 {
      ReplaceAbsent(parts[0], pat, rep);
    } else {
      var rest := parts[1..];
      assert SeparatedBy(rest, pat) by {
        forall k | 0 <= k < |rest| - 1
          ensures Find(rest[k] + pat, pat) == Some(|rest[k]|)
        {
          assert rest[k] == parts[k + 1];
        }
        assert rest[|rest| - 1] == parts[|parts| - 1];
      }
      ReplaceJoin(rest, pat, rep);
      ReplaceAfter(parts[0], pat, Join(rest, pat), rep);
    }
  }

  /** `s.split(pat)`: the pieces of `s` around the occurrences of `pat`, found left to right. */
  function SplitAtPattern(s: string, pat: string): (parts: seq<string>)
    requires pat != []
    ensures SeparatedBy(parts, pat) && Join(parts, pat) == s
    decreases |s|
  {
    match Find(s, pat)
    case None => [s]
    case Some(i) =>
      var rest := SplitAtPattern(s[i + |pat|..], pat);
      SplitFirst(s, pat, i, rest);
      [s[..i]] + rest
  }

  /** Cutting at the first occurrence in front of a split of the remainder splits the whole text. */
  lemma SplitFirst(s: string, pat: string, i: nat, rest: seq<string>)
    requires pat != [] && Find(s, pat) == Some(i)
    requires SeparatedBy(rest, pat) && Join(rest, pat) == s[i + |pat|..]
    ensures SeparatedBy([s[..i]] + rest, pat) && Join([s[..i]] + rest, pat) == s
  {
    SeparatedByFront(s, pat, i, rest);
    JoinFront(s, pat, i, rest);
  }

  lemma SeparatedByFront(s: string, pat: string, i: nat, rest: seq<string>)
    requires pat != [] && Find(s, pat) == Some(i)
    requires SeparatedBy(rest, pat)
    ensures SeparatedBy([s[..i]] + rest, pat)
  {
    var parts := [s[..i]] + rest;
    forall k | 0 <= k < |parts| - 1
      ensures Find(parts[k] + pat, pat) == Some(|parts[k]|)
    {
      if k == 0 {
        FindFirstPrefix(s, pat, i);
      } else {
        assert parts[k] == rest[k - 1];
      }
    }
    assert parts[|parts| - 1] == rest[|rest| - 1];
  }

  lemma JoinFront(s: string, pat: string, i: nat, rest: seq<string>)
    requires pat != [] && i + |pat| <= |s| && s[i..i + |pat|] == pat
    requires rest != [] && Join(rest, pat) == s[i + |pat|..]
    ensures Join([s[..i]] + rest, pat) == s
  {
    JoinCons(s[..i], rest, pat);
    ThreeSlices(s, i, i + |pat|);
  }

  /** A sequence is its three slices around two cut points. */
  lemma ThreeSlices<T>(s: seq<T>, i: nat, j: nat)
    requires i <= j <= |s|
    ensures s[..i] + s[i..j] + s[j..] == s
  {
  }

  lemma JoinCons(p: string, rest: seq<string>, sep: string)
    requires rest != []
    ensures Join([p] + rest, sep) == p + sep + Join(rest, sep)
  {
    assert ([p] + rest)[1..] == rest;
  }

  /** The text up to and including the first occurrence has it as its first occurrence. */
  lemma FindFirstPrefix(s: string, pat: string, i: nat)
    requires Find(s, pat) == Some(i)
    ensures Find(s[..i] + pat, pat) == Some(i)
  {
    var t := s[..i] + pat;
    assert t == s[..i + |pat|];
    assert OccursAt(t, pat, i);
    var j :| Find(t, pat) == Some(j);
    if j < i {
      assert s[..i + |pat|][j..j + |pat|] == s[j..j + |pat|];
      assert OccursAt(s, pat, j);
    }
  }

  /** `replace` is `split` followed by `join` with the replacement. */
  lemma ReplaceSplit(s: string, pat: string, rep: string)
    requires pat != []
    ensures Replace(s, pat, rep) == Join(SplitAtPattern(s, pat), rep)
  {
    ReplaceJoin(SplitAtPattern(s, pat), pat, rep);
  }

  /** An occurrence in a suffix is an occurrence in the whole text, shifted. */
  lemma OccursShift(s: string, pat: string, k: nat, i: nat)
    requires k <= |s|
    ensures OccursAt(s[k..], pat, i) <==> OccursAt(s, pat, k + i)
  {
    if k + i + |pat| <= |s| {
      assert s[k..][i..i + |pat|] == s[k + i..k + i + |pat|];
    }
  }

  /** A pattern that occurs only once, between `a` and `b`, is replaced there alone. */
  lemma ReplaceOnce(a: string, pat: string, b: string, rep: string)
    requires pat != []
    requires OnlyAt(a + pat + b, pat, |a|)
    ensures Replace(a + pat + b, pat, rep) == a + rep + b
  {
    var s := a + pat + b;
    ReplaceSkip(s, pat, rep, |a|);
    var t := s[|a|..];
    assert s[..|a|] == a;
    assert t == pat + b;
    assert t[..|pat|] == pat;
    assert t[|pat|..] == b;
    forall i: nat
      ensures !OccursAt(b, pat, i)
    {
      OccursShift(s, pat, |a| + |pat|, i);
    }
    ReplaceAbsent(b, pat, rep);
  }

  /** The first occurrence of `pat` is the one after a prefix without its first character. */
  lemma FindAfter(pre: string, pat: string, post: string)
    requires pat != []
    requires forall k :: 0 <= k < |pre| ==> pre[k] != pat[0]
    ensures Find(pre + pat + post, pat) == Some(|pre|)
  {
    var s := pre + pat + post;
    assert OccursAt(s, pat, |pre|) by {
      assert s[|pre|..|pre| + |pat|] == pat;
    }
    forall j: nat | j < |pre|
      ensures !OccursAt(s, pat, j)
    {
      assert s[j] == pre[j];
    }
  }

  /**
   * `s.find(pat)`: the index of the first occurrence of `pat`, if any.
   */
  function Find(s: string, pat: string): (r: Option<nat>)
    ensures r.Some? ==> OccursAt(s, pat, r.value)
    ensures r.Some? ==> forall j: nat :: j < r.value ==> !OccursAt(s, pat, j)
    ensures r.None? ==> forall j: nat :: !OccursAt(s, pat, j)
  {
    FindFrom(s, pat, 0)
  }

  function FindFrom(s: string, pat: string, from: nat): (r: Option<nat>)
    requires forall j: nat :: j < from ==> !OccursAt(s, pat, j)
    ensures r.Some? ==> from <= r.value && OccursAt(s, pat, r.value)
    ensures r.Some? ==> forall j: nat :: j < r.value ==> !OccursAt(s, pat, j)
    ensures r.None? ==> forall j: nat :: !OccursAt(s, pat, j)
    decreases |s| - from
  {
    if from + |pat| > |s| then None
    else if s[from..from + |pat|] == pat then Some(from)
    else FindFrom(s, pat, from + 1)
  }

  // ---------------------------------------------------------------------
  // Decimal numerals

  function DigitChar(d: nat): (c: char)
    requires d < 10
    ensures '0' <= c <= '9'
  {
    "0123456789"[d]
  }

  predicate IsDigit(c: char) {
    '0' <= c <= '9'
  }

  function DigitValue(c: char): (d: nat)
    requires IsDigit(c)
    ensures d < 10
  {
    (c as int) - ('0' as int)
  }

  lemma DigitRoundTrip(d: nat)
    requires d < 10
    ensures DigitValue(DigitChar(d)) == d
  {
  }

  /** The numeral `n` in base ten without leading zeros, as `format!("{}", n)`. */
  function NatToString(n: nat): (r: string)
    ensures 1 <= |r|
    ensures forall k :: 0 <= k < |r| ==> IsDigit(r[k])
    decreases n
  {
    if n < 10 then [DigitChar(n)] else NatToString(n / 10) + [DigitChar(n % 10)]
  }

  /** The value of a string of decimal digits. */
  function DecimalValue(s: string): nat
    requires forall k :: 0 <= k < |s| ==> IsDigit(s[k])
  {
    if s == [] then 0 else DecimalValue(s[..|s| - 1]) * 10 + DigitValue(s[|s| - 1])
  }

  /** Formatting a number and reading it back gives the number. */
  lemma {:induction false} NatToStringRoundTrip(n: nat)
    ensures DecimalValue(NatToString(n)) == n
    decreases n
  {
    var r := NatToString(n);
    if n < 10 {
      DigitRoundTrip(n);
    } else {
      NatToStringRoundTrip(n / 10);
      assert r[..|r| - 1] == NatToString(n / 10);
      DigitRoundTrip(n % 10);
    }
  }

  /** Leading zeros do not change the value of a numeral. */
  lemma {:induction false} LeadingZero(s: string)
    requires forall k :: 0 <= k < |s| ==> IsDigit(s[k])
    ensures DecimalValue("0" + s) == DecimalValue(s)
    decreases |s|
  {
    if s != [] {
      assert ("0" + s)[..|s|] == "0" + s[..|s| - 1];
      LeadingZero(s[..|s| - 1]);
    }
  }

  function Zeros(n: nat): (r: string)
    ensures |r| == n
    ensures forall k :: 0 <= k < n ==> r[k] == '0'
  {
    if n == 0 then [] else "0" + Zeros(n - 1)
  }

  lemma {:induction false} ZerosValue(n: nat, s: string)
    requires forall k :: 0 <= k < |s| ==> IsDigit(s[k])
    ensures DecimalValue(Zeros(n) + s) == DecimalValue(s)
    decreases n
  {
    if n > 0 {
      var t := Zeros(n - 1) + s;
      assert Zeros(n) + s == "0" + t;
      ZerosValue(n - 1, s);
      LeadingZero(t);
    } else {
      assert Zeros(n) + s == s;
    }
  }

  /**
   * The numeral of `n` padded on the left with zeros to `width` characters,
   * as chrono prints `%Y` (width 4) and `%m` (width 2).
   */
  function PadLeft(n: nat, width: nat): (r: string)
    ensures forall k :: 0 <= k < |r| ==> IsDigit(r[k])
    ensures |r| == if |NatToString(n)| < width then width else |NatToString(n)|
  {
    var digits := NatToString(n);
    if |digits| < width then Zeros(width - |digits|) + digits else digits
  }

  /** A zero-padded numeral still reads back as its number. */
  lemma PadLeftRoundTrip(n: nat, width: nat)
    ensures DecimalValue(PadLeft(n, width)) == n
  {
    var digits := NatToString(n);
    NatToStringRoundTrip(n);
    if |digits| < width {
      ZerosValue(width - |digits|, digits);
    }
  }

  /** Numbers below 10000 have at most four digits. */
  lemma NatToStringLength(n: nat)
    ensures n < 10 ==> |NatToString(n)| == 1
    ensures n < 100 ==> |NatToString(n)| <= 2
    ensures n < 10000 ==> |NatToString(n)| <= 4
  {
    if n >= 10 {
      NatToStringLength(n / 10);
    }
  }
}
