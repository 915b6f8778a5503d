/**
 String operations of the Rust standard library that the name-handling code relies on:
 substring search, splitting, decimal printing and `usize` parsing, and the ordering
 used to sort names.
 */
module Strings {
  import opened Wrappers

  const USIZE_MAX: nat := 0xFFFF_FFFF_FFFF_FFFF

  predicate OccursAt(s: string, pat: string, i: nat) {
    i + |pat| <= |s| && s[i..i + |pat|] == pat
  }

  /** `str::find`, started at position `from`: the leftmost occurrence. */
  function Find(s: string, pat: string, from: nat): (r: Option<nat>)
    requires from <= |s|
    ensures r.Some? ==> from <= r.value && OccursAt(s, pat, r.value)
    ensures r.Some? ==> forall j :: from <= j < r.value ==> !OccursAt(s, pat, j)
    ensures r.None? ==> forall j :: from <= j ==> !OccursAt(s, pat, j)
    decreases |s| - from
  {
    if OccursAt(s, pat, from) then Some(from)
    else if from == |s| then None
    else Find(s, pat, from + 1)
  }

  /** `str::rfind`, among positions up to `upTo`: the rightmost occurrence. */
  function RFind(s: string, pat: string, upTo: nat): (r: Option<nat>)
    ensures r.Some? ==> r.value <= upTo && OccursAt(s, pat, r.value)
    ensures r.Some? ==> forall j :: r.value < j <= upTo ==> !OccursAt(s, pat, j)
    ensures r.None? ==> forall j :: 0 <= j <= upTo ==> !OccursAt(s, pat, j)
  {
    if OccursAt(s, pat, upTo) then Some(upTo)
    else if upTo == 0 then None
    else RFind(s, pat, upTo - 1)
  }

  predicate Contains(s: string, pat: string) {
    Find(s, pat, 0).Some?
  }

  predicate EndsWith(s: string, suffix: string) {
    |suffix| <= |s| && s[|s| - |suffix|..] == suffix
  }

  function StripPrefix(s: string, prefix: string): Option<string> {
    if prefix <= s then Some(s[|prefix|..]) else None
  }

  lemma {:induction false} SameTail(prefix: string, a: string, b: string)
    requires prefix + a == prefix + b
    ensures a == b
  {
    assert (prefix + a)[|prefix|..] == a && (prefix + b)[|prefix|..] == b;
  }

  lemma {:induction false} JoinAssoc(a: string, b: string, c: string)
    ensures a + b + c == a + (b + c)
  {
  }

  /** `s.split(c).next()`: everything before the first `c`. */
  function UpTo(s: string, c: char): string {
    if s == "" || s[0] == c then "" else [s[0]] + UpTo(s[1..], c)
  }

  lemma {:induction false} UpToStops(a: string, c: char, b: string)
    requires c !in a
    requires b == "" || b[0] == c
    ensures UpTo(a + b, c) == a
  {
    if a == "" {
      assert a + b == b;
    } else {
      assert (a + b)[1..] == a[1..] + b;
      UpToStops(a[1..], c, b);
    }
  }

  // ----- decimal numbers

  predicate IsDigit(c: char) { '0' <= c <= '9' }

  predicate AllDigits(s: string) { forall i :: 0 <= i < |s| ==> IsDigit(s[i]) }

  function DigitChar(d: nat): (c: char)
    requires d < 10
    ensures IsDigit(c) && c as int - '0' as int == d
  {
    '0' + d as char
  }

  /** `format!("{n}")` */
  function Decimal(n: nat): (s: string)
    ensures s != "" && AllDigits(s)
  {
    if n < 10 then [DigitChar(n)] else Decimal(n / 10) + [DigitChar(n % 10)]
  }

  function DigitsValue(s: string): nat
    requires AllDigits(s)
  {
    if s == "" then 0
    else 10 * DigitsValue(s[..|s| - 1]) + (s[|s| - 1] as int - '0' as int)
  }

  lemma {:induction false} DecimalValue(n: nat)
    ensures DigitsValue(Decimal(n)) == n
  {
    if n >= 10 {
      DecimalValue(n / 10);
      assert Decimal(n)[..|Decimal(n)| - 1] == Decimal(n / 10);
    }
  }

  lemma {:induction false} DecimalInjective(m: nat, n: nat)
    requires Decimal(m) == Decimal(n)
    ensures m == n
  {
    DecimalValue(m);
    DecimalValue(n);
  }

  function ZeroDigits(k: nat): (s: string)
    ensures |s| == k && forall i :: 0 <= i < k ==> s[i] == '0'
  {
    seq(k, _ => '0')
  }

  lemma {:induction false} DecimalSnoc(v: nat, last: char)
    requires v > 0 && IsDigit(last)
    ensures Decimal(10 * v + (last as int - '0' as int)) == Decimal(v) + [last]
  {
  }

  /** A run of digits is the decimal form of its value, up to leading zeros. */
  lemma {:induction false} LeadingZeros(s: string) returns (k: nat)
    requires s != "" && AllDigits(s)
    ensures s == ZeroDigits(k) + Decimal(DigitsValue(s))
  {
    var init, last := s[..|s| - 1], s[|s| - 1];
    assert s == init + [last];
    if init == "" {
      k := 0;
    } else {
      var j := LeadingZeros(init);
      var v := DigitsValue(init);
      if v == 0 {
        k := j + 1;
        assert init == ZeroDigits(j) + "0" == ZeroDigits(k);
      } else {
        k := j;
        DecimalSnoc(v, last);
        JoinAssoc(ZeroDigits(j), Decimal(v), [last]);
      }
    }
  }

  /** `str::parse::<usize>`: an optional plus sign, at least one digit, no overflow. */
  function ParseUsize(s: string): Option<nat> {
    var body := if s != "" && s[0] == '+' then s[1..] else s;
    if body != "" && AllDigits(body) && DigitsValue(body) <= USIZE_MAX
    then Some(DigitsValue(body)) else None
  }

  lemma {:induction false} ParseDecimal(n: nat)
    requires n <= USIZE_MAX
    ensures ParseUsize(Decimal(n)) == Some(n)
  {
    DecimalValue(n);
    assert IsDigit(Decimal(n)[0]);
  }

  // ----- ordering

  /** The ordering of `String`: lexicographic, a proper prefix first. */
  predicate LexLess(a: string, b: string) {
    b != "" && (a == "" || a[0] < b[0] || (a[0] == b[0] && LexLess(a[1..], b[1..])))
  }

  lemma {:induction false} LexTrichotomy(a: string, b: string)
    ensures LexLess(a, b) || a == b || LexLess(b, a)
    ensures !(LexLess(a, b) && LexLess(b, a))
    ensures !LexLess(a, a)
  {
    if a != "" {
      LexTrichotomy(a[1..], if b == "" then "" else b[1..]);
      if b != "" {
        assert a == [a[0]] + a[1..] && b == [b[0]] + b[1..];
      }
    } else if b != "" {
      LexTrichotomy("", b[1..]);
    }
  }

  lemma {:induction false} LexTransitive(a: string, b: string, c: string)
    requires LexLess(a, b) && LexLess(b, c)
    ensures LexLess(a, c)
  {
    if a != "" && a[0] == b[0] && b[0] == c[0] {
      LexTransitive(a[1..], b[1..], c[1..]);
    }
  }

  ghost predicate Ascending(s: seq<string>) {
    forall i, j :: 0 <= i < j < |s| ==> LexLess(s[i], s[j])
  }

  /** Insert a name into a strictly ascending list, once. */
  function Insert(w: string, s: seq<string>): (r: seq<string>)
    ensures forall x :: x in r <==> x == w || x in s
  {
    if s == [] then [w]
    else if w == s[0] then s
    else if LexLess(w, s[0]) then [w] + s
    else [s[0]] + Insert(w, s[1..])
  }

  lemma {:induction false} InsertAscending(w: string, s: seq<string>)
    requires Ascending(s)
    ensures Ascending(Insert(w, s))
  {
    var r := Insert(w, s);
    if s == [] || w == s[0] {
    } else if LexLess(w, s[0]) {
      forall j | 0 < j < |r| ensures LexLess(r[0], r[j]) {
        if j > 1 { LexTransitive(w, s[0], s[j - 1]); }
      }
    } else {
      LexTrichotomy(w, s[0]);
      InsertAscending(w, s[1..]);
      forall j | 0 < j < |r| ensures LexLess(r[0], r[j]) {
        assert r[j] in Insert(w, s[1..]);
        assert r[j] == w || r[j] in s[1..];
      }
      forall i, j | 0 <= i < j < |r| ensures LexLess(r[i], r[j]) {
        if i > 0 { assert r[i] == Insert(w, s[1..])[i - 1] && r[j] == Insert(w, s[1..])[j - 1]; }
      }
    }
  }

  /** `sort` followed by `dedup`: the distinct names in ascending order. */
  function SortDedup(s: seq<string>): (r: seq<string>)
    ensures forall x :: x in r <==> x in s
  {
    if s == [] then [] else Insert(s[0], SortDedup(s[1..]))
  }

  lemma {:induction false} SortDedupAscending(s: seq<string>)
    ensures Ascending(SortDedup(s))
  {
    if s != [] {
      SortDedupAscending(s[1..]);
      InsertAscending(s[0], SortDedup(s[1..]));
    }
  }

  /** A strictly ascending list is fixed by its elements, so any correct sort-and-dedup
      yields the same list as `SortDedup`. */
  lemma {:induction false} AscendingUnique(s: seq<string>, t: seq<string>)
    requires Ascending(s) && Ascending(t)
    requires forall x :: x in s <==> x in t
    ensures s == t
  {
    assert |t| > 0 ==> t[0] in s;
    if s != [] {
      assert s[0] in t;
      LexTrichotomy(s[0], t[0]);
      assert s[0] == t[0];
      LexTrichotomy(s[0], s[0]);
      assert s[0] !in s[1..] && t[0] !in t[1..];
      forall x ensures x in s[1..] <==> x in t[1..] {
        assert x in s <==> x == s[0] || x in s[1..];
        assert x in t <==> x == t[0] || x in t[1..];
      }
      AscendingUnique(s[1..], t[1..]);
    }
  }

  /** Up to `k` the two agree, and there the first one ends or has the smaller character. */
  ghost predicate LessAt(a: string, b: string, k: nat) {
    k <= |a| && k < |b| && a[..k] == b[..k] && (k == |a| || a[k] < b[k])
  }

  lemma {:induction false} LexLessIff(a: string, b: string)
    ensures LexLess(a, b) <==> exists k: nat :: LessAt(a, b, k)
  {
    if LexLess(a, b) {
      if a == "" || a[0] < b[0] {
        assert LessAt(a, b, 0);
      } else {
        LexLessIff(a[1..], b[1..]);
        var k: nat :| LessAt(a[1..], b[1..], k);
        assert a == [a[0]] + a[1..] && b == [b[0]] + b[1..];
        assert a[..k + 1] == [a[0]] + a[1..][..k] && b[..k + 1] == [b[0]] + b[1..][..k];
        assert LessAt(a, b, k + 1);
      }
    } else if k: nat :| LessAt(a, b, k) {
      if k > 0 {
        assert a[..k][0] == b[..k][0];
        assert a[1..][..k - 1] == a[..k][1..] && b[1..][..k - 1] == b[..k][1..];
        assert LessAt(a[1..], b[1..], k - 1);
        LexLessIff(a[1..], b[1..]);
      }
    }
  }
}
