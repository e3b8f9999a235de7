/** The string operations the controller borrows from Go's strconv and strings. */
module Text {
  import opened Api

  const INT32_LIMIT := 0x8000_0000
  const INT64_LIMIT := 0x8000_0000_0000_0000

  predicate IsDigit(c: char) { '0' <= c <= '9' }

  predicate AllDigits(s: string) { forall i :: 0 <= i < |s| ==> IsDigit(s[i]) }

  function DigitChar(d: nat): char
    requires d < 10
  {
    ('0' as int + d) as char
  }

  function FormatNat(n: nat): string {
    if n < 10 then [DigitChar(n)] else FormatNat(n / 10) + [DigitChar(n % 10)]
  }

  /** strconv.FormatInt(n, 10) */
  function FormatInt(n: int): string {
    if n < 0 then "-" + FormatNat(-n) else FormatNat(n)
  }

  function DigitsValue(s: string): nat
    requires AllDigits(s)
  {
    if s == "" then 0
    else DigitsValue(s[..|s| - 1]) * 10 + (s[|s| - 1] as int - '0' as int)
  }

  function ParseMagnitude(s: string): Option<nat> {
    if s != "" && AllDigits(s) then Some(DigitsValue(s)) else None
  }

  /** strconv.ParseInt(s, 10, bits) with limit = 2^(bits-1): an optional sign,
      at least one digit, and a value that fits. */
  function ParseInt(s: string, limit: nat): Option<int> {
    var negative := s != "" && s[0] == '-';
    var magnitude := ParseMagnitude(if s != "" && (s[0] == '-' || s[0] == '+') then s[1..] else s);
    match magnitude
    case None => None
    case Some(m) =>
      if negative then (if m <= limit then Some(0 - m) else None)
      else if m < limit then Some(m) else None
  }

  lemma {:induction false} FormatNatParses(n: nat)
    ensures FormatNat(n) != "" && AllDigits(FormatNat(n)) && DigitsValue(FormatNat(n)) == n
  {
    if n < 10 {
      assert FormatNat(n)[..0] == "";
    } else {
      FormatNatParses(n / 10);
      var s := FormatNat(n);
      assert s[..|s| - 1] == FormatNat(n / 10);
    }
  }

  /** The decimal printer and parser undo each other on the whole integer type. */
  lemma ParseFormat(n: int, limit: nat)
    requires 0 - limit <= n < limit
    ensures ParseInt(FormatInt(n), limit) == Some(n)
  {
    var m := FormatNat(if n < 0 then -n else n);
    FormatNatParses(if n < 0 then -n else n);
    assert IsDigit(m[0]);
    if n < 0 {
      assert FormatInt(n)[1..] == m;
    }
  }

  function Zeros(n: nat): string { seq(n, _ => '0') }

  /** A nonempty digit string is its value in decimal, with some zeros in front. */
  lemma {:induction false} DigitsCanonical(s: string) returns (z: nat)
    requires s != "" && AllDigits(s)
    ensures s == Zeros(z) + FormatNat(DigitsValue(s))
  {
    var t, c := s[..|s| - 1], s[|s| - 1];
    assert s == t + [c] && IsDigit(c);
    if t == "" {
      z := 0;
      assert DigitsValue(t) == 0;
    } else {
      z := DigitsCanonical(t);
      if DigitsValue(t) == 0 {
        assert FormatNat(0) == "0" && Zeros(z + 1) == Zeros(z) + "0";
        z := z + 1;
      }
    }
  }

  lemma {:induction false} PaddedValue(z: nat, m: nat)
    ensures var s := Zeros(z) + FormatNat(m); s != "" && AllDigits(s) && DigitsValue(s) == m
    decreases m
  {
    var s := Zeros(z) + FormatNat(m);
    FormatNatParses(m);
    if m < 10 {
      assert s[..|s| - 1] == Zeros(z);
      ZerosValue(z);
    } else {
      PaddedValue(z, m / 10);
      assert s[..|s| - 1] == Zeros(z) + FormatNat(m / 10);
    }
  }

  lemma {:induction false} ZerosValue(z: nat)
    ensures AllDigits(Zeros(z)) && DigitsValue(Zeros(z)) == 0
  {
    if z > 0 {
      ZerosValue(z - 1);
      assert Zeros(z)[..z - 1] == Zeros(z - 1);
    }
  }

  /** The decimal digits of m, with any zeros in front. */
  ghost predicate Padded(s: string, m: nat) { exists z: nat :: s == Zeros(z) + FormatNat(m) }

  lemma MagnitudeIff(s: string, m: nat)
    ensures ParseMagnitude(s) == Some(m) <==> Padded(s, m)
    ensures Padded(s, m) ==> s != "" && s[0] != '-' && s[0] != '+'
  {
    if Padded(s, m) {
      var z: nat :| s == Zeros(z) + FormatNat(m);
      PaddedValue(z, m);
      assert IsDigit(s[0]);
    }
    if ParseMagnitude(s) == Some(m) {
      var z := DigitsCanonical(s);
    }
  }

  /** The texts of a number: an optional sign, any zeros, and its decimal digits. */
  ghost predicate Spells(s: string, n: int) {
    || (n >= 0 && Padded(s, n))
    || (n >= 0 && s != "" && s[0] == '+' && Padded(s[1..], n))
    || (n <= 0 && s != "" && s[0] == '-' && Padded(s[1..], 0 - n))
  }

  /** Parsing accepts exactly the texts of the numbers that fit. */
  lemma ParseIntIff(s: string, limit: nat, n: int)
    requires limit > 0
    ensures ParseInt(s, limit) == Some(n) <==> 0 - limit <= n < limit && Spells(s, n)
  {
    var m := if n < 0 then 0 - n else n;
    MagnitudeIff(s, m);
    if s != "" {
      MagnitudeIff(s[1..], m);
    }
  }

  /** Index of the first occurrence of c at or after i, or |s|. */
  function IndexFrom(s: string, c: char, i: nat): (j: nat)
    requires i <= |s|
    ensures i <= j <= |s|
    ensures c !in s[i..j]
    ensures j < |s| ==> s[j] == c
    decreases |s| - i
  {
    if i == |s| || s[i] == c then i else IndexFrom(s, c, i + 1)
  }

  /** strings.Cut with a one-character separator; the found flag is dropped. */
  function Cut(s: string, c: char): (string, string) {
    var j := IndexFrom(s, c, 0);
    if j == |s| then (s, "") else (s[..j], s[j + 1..])
  }

  lemma CutAbsent(s: string, c: char)
    requires c !in s
    ensures Cut(s, c) == (s, "")
  {
  }

  lemma {:induction false} IndexFromAt(s: string, c: char, i: nat, k: nat)
    requires i <= k < |s| && s[k] == c && forall j :: i <= j < k ==> s[j] != c
    ensures IndexFrom(s, c, i) == k
    decreases k - i
  {
    if i < k {
      IndexFromAt(s, c, i + 1, k);
    }
  }

  lemma CutAt(before: string, c: char, after: string)
    requires c !in before
    ensures Cut(before + [c] + after, c) == (before, after)
  {
    var s := before + [c] + after;
    IndexFromAt(s, c, 0, |before|);
    assert s[..|before|] == before && s[|before| + 1..] == after;
  }

  lemma FormatNatHasNoDash(n: nat)
    ensures '-' !in FormatNat(n)
  {
    FormatNatParses(n);
  }

  predicate HasPrefix(s: string, prefix: string) {
    |prefix| <= |s| && s[..|prefix|] == prefix
  }

  predicate HasSuffix(s: string, suffix: string) {
    |suffix| <= |s| && s[|s| - |suffix|..] == suffix
  }

  function LowerChar(c: char): char {
    if 'A' <= c <= 'Z' then (c as int - 'A' as int + 'a' as int) as char else c
  }

  /** strings.ToLower on ASCII text. */
  function ToLower(s: string): string {
    seq(|s|, i requires 0 <= i < |s| => LowerChar(s[i]))
  }

  // ----- strings.Compare: byte order, here on characters -----

  predicate StringLess(a: string, b: string) {
    b != "" && (a == "" || a[0] < b[0] || (a[0] == b[0] && StringLess(a[1..], b[1..])))
  }

  lemma {:induction false} StringLessTotal(a: string, b: string)
    ensures StringLess(a, b) || StringLess(b, a) || a == b
    ensures !(StringLess(a, b) && StringLess(b, a))
    ensures StringLess(a, b) ==> a != b
  {
    if a != "" && b != "" && a[0] == b[0] {
      StringLessTotal(a[1..], b[1..]);
      assert a == [a[0]] + a[1..] && b == [b[0]] + b[1..];
    }
  }

  /** Strings are ordered by their first difference; a proper prefix comes first. */
  lemma {:induction false} StringLessIff(a: string, b: string)
    ensures StringLess(a, b) <==>
            exists k :: 0 <= k <= |a| && k < |b| && a[..k] == b[..k] && (k == |a| || a[k] < b[k])
  {
    if a != "" && b != "" && a[0] == b[0] {
      StringLessIff(a[1..], b[1..]);
      if StringLess(a[1..], b[1..]) {
        var k :| 0 <= k <= |a[1..]| && k < |b[1..]| && a[1..][..k] == b[1..][..k] &&
                 (k == |a[1..]| || a[1..][k] < b[1..][k]);
        assert a[..k + 1] == [a[0]] + a[1..][..k] && b[..k + 1] == [b[0]] + b[1..][..k];
      }
      if k :| 0 <= k <= |a| && k < |b| && a[..k] == b[..k] && (k == |a| || a[k] < b[k]) {
        assert k > 0;
        assert a[1..][..k - 1] == a[..k][1..] && b[1..][..k - 1] == b[..k][1..];
        assert k - 1 == |a[1..]| || a[1..][k - 1] < b[1..][k - 1];
      }
    } else {
      assert a[..0] == b[..0];
      forall k | 0 < k <= |a| && k < |b|
        ensures a[..k] != b[..k]
      {
        assert a[..k][0] == a[0] && b[..k][0] == b[0];
      }
    }
  }

  lemma {:induction false} StringLessTransitive(a: string, b: string, c: string)
    requires StringLess(a, b) && StringLess(b, c)
    ensures StringLess(a, c)
  {
    if a != "" && a[0] == b[0] && b[0] == c[0] {
      StringLessTransitive(a[1..], b[1..], c[1..]);
    }
  }
}
