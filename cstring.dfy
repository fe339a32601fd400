/**
 * The C library string and number routines the server relies on, stated over
 * Dafny strings. A Dafny `string` stands for the characters of a C string
 * before its terminating NUL; each character stands for one byte.
 */
module CString {
  import opened Wrappers

  const NUL: char := '\0'

  /** The C string a raw buffer holds: its characters up to the first NUL. */
  function UpToNul(s: string): (r: string)
    ensures |r| <= |s| && r == s[..|r|]
    ensures NUL !in r
    ensures |r| < |s| ==> s[|r|] == NUL
  {
    if s == [] || s[0] == NUL then [] else [s[0]] + UpToNul(s[1..])
  }

  /** A string without NUL is its own C string. */
  lemma {:induction false} UpToNulWithoutNul(s: string)
    requires NUL !in s
    ensures UpToNul(s) == s
  {
    if s != [] {
      assert s[0] in s;
      assert forall c :: c in s[1..] ==> c in s;
      UpToNulWithoutNul(s[1..]);
    }
  }

  /** What `strncpy(dst, src, n)` leaves in a zeroed buffer of `n + 1` bytes. */
  function Truncate(s: string, n: nat): (r: string)
    ensures |r| <= n && |r| <= |s| && r == s[..|r|]
    ensures |s| <= n ==> r == s
    ensures |r| == if |s| <= n then |s| else n
  {
    if |s| <= n then s else s[..n]
  }

  /** `isspace` in the C locale. */
  predicate IsSpace(c: char) {
    c == ' ' || c == '\t' || c == '\n' || c == '\r' || c as int == 11 || c as int == 12
  }

  /** `tolower` in the C locale: only ASCII letters change. */
  function ToLower(c: char): char {
    if 'A' <= c <= 'Z' then (c as int + 32) as char else c
  }

  function LowerStr(s: string): (r: string)
    ensures |r| == |s|
    ensures forall i :: 0 <= i < |s| ==> r[i] == ToLower(s[i])
  {
    seq(|s|, i requires 0 <= i < |s| => ToLower(s[i]))
  }

  /** `strncmp(s, p, |p|) == 0`. */
  predicate StartsWith(s: string, p: string) {
    |s| >= |p| && s[..|p|] == p
  }

  /** `strncasecmp(s, p, |p|) == 0`. */
  predicate StartsWithCI(s: string, p: string) {
    |s| >= |p| && LowerStr(s[..|p|]) == LowerStr(p)
  }

  predicate OccursAt(hay: string, needle: string, k: nat) {
    k + |needle| <= |hay| && hay[k..k + |needle|] == needle
  }

  /** The first occurrence of `needle` in `hay` at or after `from`, as `strstr` finds it. */
  function IndexFrom(hay: string, needle: string, from: nat): (r: Option<nat>)
    decreases |hay| - from
    ensures r.Some? ==> from <= r.value && OccursAt(hay, needle, r.value)
    ensures r.Some? ==> forall k :: from <= k < r.value ==> !OccursAt(hay, needle, k)
    ensures r.None? ==> forall k :: from <= k ==> !OccursAt(hay, needle, k)
  {
    if from + |needle| > |hay| then None
    else if hay[from..from + |needle|] == needle then Some(from)
    else IndexFrom(hay, needle, from + 1)
  }

  function IndexOf(hay: string, needle: string): Option<nat> {
    IndexFrom(hay, needle, 0)
  }

  /** `strstr(hay, needle) != NULL`. */
  predicate Contains(hay: string, needle: string) {
    IndexOf(hay, needle).Some?
  }

  /** `strcasestr(hay, needle) != NULL`. */
  predicate ContainsCI(hay: string, needle: string) {
    Contains(LowerStr(hay), LowerStr(needle))
  }

  /** An occurrence with none before it is the one the search finds. */
  lemma FirstOccurrence(hay: string, needle: string, k: nat)
    requires OccursAt(hay, needle, k)
    requires forall j: nat :: j < k ==> !OccursAt(hay, needle, j)
    ensures IndexOf(hay, needle) == Some(k)
  {
    var found := IndexFrom(hay, needle, 0);
    assert found.Some?;
  }

  lemma ContainsIff(hay: string, needle: string)
    ensures Contains(hay, needle) <==> exists k :: OccursAt(hay, needle, k)
  {
  }

  // ---------------------------------------------------------------------
  // Numerals, as printf's %d, %zu and %lx write them.

  /** The digit character of `d`: 0-9 then lower-case a-f. */
  function DigitChar(d: nat): char
    requires d < 16
  {
    if d < 10 then ('0' as int + d) as char else ('a' as int + d - 10) as char
  }

  /** The value of a digit character, or -1 for any other character. */
  function DigitValue(c: char): int {
    if '0' <= c <= '9' then c as int - '0' as int
    else if 'a' <= c <= 'f' then c as int - 'a' as int + 10
    else -1
  }

  lemma DigitRoundTrip(d: nat)
    requires d < 16
    ensures DigitValue(DigitChar(d)) == d
    ensures DigitChar(d) == '0' <==> d == 0
  {
  }

  lemma DivisionStep(n: nat, base: nat)
    requires 2 <= base <= n
    ensures 0 < n / base < n && 0 <= n % base < base
    ensures n == n / base * base + n % base
  {
  }

  /** The numeral of `n` in `base`, without sign or leading zeros. */
  function NatToString(n: nat, base: nat): (r: string)
    requires 2 <= base <= 16
    decreases n
    ensures |r| > 0
    ensures forall i :: 0 <= i < |r| ==> 0 <= DigitValue(r[i]) < base
    ensures |r| > 1 ==> r[0] != '0'
  {
    if n < base then
      DigitRoundTrip(n);
      [DigitChar(n)]
    else
      var q, d := n / base, n % base;
      DivisionStep(n, base);
      DigitRoundTrip(d);
      NatToString(q, base) + [DigitChar(d)]
  }

  /** The value of a numeral whose characters are digits of `base`. */
  function StringToNat(s: string, base: nat): nat
    requires 2 <= base <= 16
    requires forall i :: 0 <= i < |s| ==> 0 <= DigitValue(s[i]) < base
  {
    if s == [] then 0
    else StringToNat(s[..|s| - 1], base) * base + DigitValue(s[|s| - 1])
  }

  lemma {:induction false} NumeralRoundTrip(n: nat, base: nat)
    requires 2 <= base <= 16
    ensures StringToNat(NatToString(n, base), base) == n
    decreases n
  {
    var r := NatToString(n, base);
    if n < base {
      DigitRoundTrip(n);
    } else {
      var q, d := n / base, n % base;
      DivisionStep(n, base);
      DigitRoundTrip(d);
      NumeralRoundTrip(q, base);
      assert r[..|r| - 1] == NatToString(q, base);
      assert DigitValue(r[|r| - 1]) == d;
      assert StringToNat(r, base) == q * base + d;
    }
  }

  lemma NumeralInjective(m: nat, n: nat, base: nat)
    requires 2 <= base <= 16
    requires NatToString(m, base) == NatToString(n, base)
    ensures m == n
  {
    NumeralRoundTrip(m, base);
    NumeralRoundTrip(n, base);
  }

  /** printf's `%d` of an int (and `%zu` of a size). */
  function Decimal(i: int): string {
    if i < 0 then "-" + NatToString(-i, 10) else NatToString(i, 10)
  }

  /** printf's `%lx` of an unsigned long. */
  function Hex(n: nat): string {
    NatToString(n, 16)
  }

  const TWO_TO_64: int := 0x1_0000_0000_0000_0000

  /** Conversion of a C integer to `size_t` / `unsigned long` (64 bits, two's complement). */
  function Unsigned64(i: int): (r: nat)
    ensures r < TWO_TO_64
  {
    i % TWO_TO_64
  }

  /**
   * The weak validator `W/"<a hex>-<b hex>"` the server writes for a file
   * (size and modification time) and for a 200 response (length and clock).
   */
  function WeakETag(a: nat, b: int): string {
    "W/\"" + Hex(a) + "-" + Hex(Unsigned64(b)) + "\""
  }

  lemma {:induction false} SplitAtDash(x1: string, y1: string, x2: string, y2: string)
    requires '-' !in x1 && '-' !in x2
    requires x1 + "-" + y1 == x2 + "-" + y2
    ensures x1 == x2 && y1 == y2
  {
    var s := x1 + "-" + y1;
    FirstDash(x1, y1);
    FirstDash(x2, y2);
    assert x1 == s[..|x1|] == x2;
    assert y1 == s[|x1| + 1..] == y2;
  }

  lemma FirstDash(x: string, y: string)
    requires '-' !in x
    ensures IndexOf(x + "-" + y, "-") == Some(|x|)
  {
    var s := x + "-" + y;
    assert OccursAt(s, "-", |x|);
    forall k | 0 <= k < |x| ensures !OccursAt(s, "-", k) {
      assert s[k..k + 1] == [x[k]];
    }
  }

  lemma NoDashInNumeral(n: nat, base: nat)
    requires 2 <= base <= 16
    ensures '-' !in NatToString(n, base)
  {
    var r := NatToString(n, base);
    forall i | 0 <= i < |r| ensures r[i] != '-' {
      assert 0 <= DigitValue(r[i]);
    }
  }

  /** Two validators are equal only when both of their numbers agree (the clock modulo 2^64). */
  lemma WeakETagInjective(a1: nat, b1: int, a2: nat, b2: int)
    requires WeakETag(a1, b1) == WeakETag(a2, b2)
    ensures a1 == a2 && Unsigned64(b1) == Unsigned64(b2)
  {
    var e1, e2 := WeakETag(a1, b1), WeakETag(a2, b2);
    var m1 := Hex(a1) + "-" + Hex(Unsigned64(b1));
    var m2 := Hex(a2) + "-" + Hex(Unsigned64(b2));
    assert e1 == "W/\"" + m1 + "\"";
    assert e2 == "W/\"" + m2 + "\"";
    assert m1 == e1[3..|e1| - 1];
    assert m2 == e2[3..|e2| - 1];
    NoDashInNumeral(a1, 16);
    NoDashInNumeral(a2, 16);
    SplitAtDash(Hex(a1), Hex(Unsigned64(b1)), Hex(a2), Hex(Unsigned64(b2)));
    NumeralInjective(a1, a2, 16);
    NumeralInjective(Unsigned64(b1), Unsigned64(b2), 16);
  }

  /** The letters of a validator: 'W' only first, '"' only third and last. */
  lemma ETagShape(a: nat, b: int)
    ensures var e := WeakETag(a, b);
            && |e| >= 7 && e[0] == 'W' && e[2] == '"' && e[|e| - 1] == '"'
            && (forall i :: 1 <= i < |e| ==> e[i] != 'W')
            && (forall i :: 3 <= i < |e| - 1 ==> e[i] != '"')
  {
    var h1, h2 := Hex(a), Hex(Unsigned64(b));
    var e := WeakETag(a, b);
    assert e == "W/\"" + h1 + "-" + h2 + "\"";
    forall i | 3 <= i < |e| - 1
      ensures e[i] != 'W' && e[i] != '"'
    {
      if i < 3 + |h1| {
        assert e[i] == h1[i - 3];
        assert 0 <= DigitValue(h1[i - 3]);
      } else if i > 3 + |h1| {
        assert e[i] == h2[i - 4 - |h1|];
        assert 0 <= DigitValue(h2[i - 4 - |h1|]);
      }
    }
  }

  /**
   * One validator occurs inside another exactly when the two are the same,
   * that is when both numbers agree (the second modulo 2^64).
   */
  lemma ValidatorInValidator(a1: nat, b1: int, a2: nat, b2: int)
    ensures Contains(WeakETag(a1, b1), WeakETag(a2, b2)) <==> a1 == a2 && Unsigned64(b1) == Unsigned64(b2)
  {
    var e1, e2 := WeakETag(a1, b1), WeakETag(a2, b2);
    ContainsIff(e1, e2);
    if a1 == a2 && Unsigned64(b1) == Unsigned64(b2) {
      assert e1 == e2;
      assert OccursAt(e1, e2, 0);
    }
    if Contains(e1, e2) {
      var k: nat :| OccursAt(e1, e2, k);
      ETagShape(a1, b1);
      ETagShape(a2, b2);
      assert e1[k] == e2[0] by {
        assert e1[k..k + |e2|][0] == e2[0];
      }
      assert k == 0;
      var last := |e2| - 1;
      assert e1[last] == e2[last] by {
        assert e1[..|e2|][last] == e2[last];
      }
      assert last == |e1| - 1;
      assert e1 == e1[..|e2|];
      WeakETagInjective(a1, b1, a2, b2);
    }
  }

  // ---------------------------------------------------------------------
  // atoi

  function SkipSpaces(s: string, i: nat): (j: nat)
    requires i <= |s|
    decreases |s| - i
    ensures i <= j <= |s|
    ensures forall k :: i <= k < j ==> IsSpace(s[k])
    ensures j < |s| ==> !IsSpace(s[j])
  {
    if i < |s| && IsSpace(s[i]) then SkipSpaces(s, i + 1) else i
  }

  predicate IsDecimalDigit(c: char) {
    '0' <= c <= '9'
  }

  function DigitRunEnd(s: string, i: nat): (j: nat)
    requires i <= |s|
    decreases |s| - i
    ensures i <= j <= |s|
    ensures forall k :: i <= k < j ==> IsDecimalDigit(s[k])
    ensures j < |s| ==> !IsDecimalDigit(s[j])
  {
    if i < |s| && IsDecimalDigit(s[i]) then DigitRunEnd(s, i + 1) else i
  }

  /**
   * `atoi`: leading white space, an optional sign, then the longest run of
   * decimal digits; 0 when there is no digit. The value is unbounded here.
   */
  function Atoi(s: string): int {
    var i := SkipSpaces(s, 0);
    var negative := i < |s| && s[i] == '-';
    var j := if i < |s| && (s[i] == '-' || s[i] == '+') then i + 1 else i;
    var k := DigitRunEnd(s, j);
    var v: int := StringToNat(s[j..k], 10);
    if negative then -v else v
  }

  lemma AtoiOfNumeral(n: nat)
    ensures Atoi(NatToString(n, 10)) == n
  {
    var s := NatToString(n, 10);
    assert !IsSpace(s[0]) by { assert 0 <= DigitValue(s[0]) < 10; }
    assert SkipSpaces(s, 0) == 0;
    assert DigitRunEnd(s, 0) == |s| by {
      forall k | 0 <= k < |s| ensures IsDecimalDigit(s[k]) {
        assert 0 <= DigitValue(s[k]) < 10;
      }
      DigitRunAll(s, 0);
    }
    assert s[0..|s|] == s;
    NumeralRoundTrip(n, 10);
  }

  lemma {:induction false} DigitRunAll(s: string, i: nat)
    requires i <= |s|
    requires forall k :: i <= k < |s| ==> IsDecimalDigit(s[k])
    ensures DigitRunEnd(s, i) == |s|
    decreases |s| - i
  {
    if i < |s| {
      DigitRunAll(s, i + 1);
    }
  }
}
