/** String primitives the script relies on: Python's `in` on strings, the
    first match of a literal, the greedy `\d*` digit run, `int()` of a digit
    string, and fixed-width decimal formatting. */
module Text {
  import opened Errors

  /** `pat` occurs in `s` starting at position `i`. */
  predicate OccursAt(s: string, pat: string, i: nat)
  {
    i + |pat| <= |s| && s[i..i + |pat|] == pat
  }

  /** The first position at or after `from` where `pat` occurs. */
  function FindFrom(s: string, pat: string, from: nat): (r: Option<nat>)
    ensures r.Some? ==> from <= r.value && r.value + |pat| <= |s|
    decreases |s| + 1 - from
  {
    if from + |pat| > |s| then None
    else if s[from..from + |pat|] == pat then Some(from)
    else FindFrom(s, pat, from + 1)
  }

  /** The search from `from` finds an occurrence, and none is skipped. */
  lemma {:induction false} FindFromSpec(s: string, pat: string, from: nat)
    ensures var r := FindFrom(s, pat, from);
      && (r.Some? ==> from <= r.value && OccursAt(s, pat, r.value))
      && forall j: nat :: from <= j && (r.None? || j < r.value) ==> !OccursAt(s, pat, j)
    decreases |s| + 1 - from
  {
    if from + |pat| <= |s| && s[from..from + |pat|] != pat {
      FindFromSpec(s, pat, from + 1);
    }
  }

  /** The leftmost occurrence of `pat` in `s`, as `re.search` finds it for a literal. */
  function FindFirst(s: string, pat: string): (r: Option<nat>)
    ensures r.Some? ==> r.value + |pat| <= |s|
  {
    FindFrom(s, pat, 0)
  }

  /** `FindFirst` returns the leftmost occurrence, and `None` only when there is none. */
  lemma FindFirstSpec(s: string, pat: string)
    ensures var r := FindFirst(s, pat);
      && (r.Some? ==> OccursAt(s, pat, r.value) && forall j: nat :: j < r.value ==> !OccursAt(s, pat, j))
      && (r.None? ==> forall j: nat :: !OccursAt(s, pat, j))
  {
    FindFromSpec(s, pat, 0);
  }

  /** Python's `pat in s`. */
  predicate Contains(s: string, pat: string)
  {
    FindFirst(s, pat).Some?
  }

  /** `pat in s` holds exactly when `pat` occurs somewhere in `s`. */
  lemma ContainsIff(s: string, pat: string)
    ensures Contains(s, pat) <==> exists i: nat :: OccursAt(s, pat, i)
  {
    FindFirstSpec(s, pat);
    if Contains(s, pat) {
      assert OccursAt(s, pat, FindFirst(s, pat).value);
    }
  }

  predicate IsDigit(c: char)
  {
    '0' <= c <= '9'
  }

  predicate AllDigits(s: string)
  {
    forall k :: 0 <= k < |s| ==> IsDigit(s[k])
  }

  function DigitValue(c: char): (d: nat)
    requires IsDigit(c)
    ensures d < 10
  {
    c as int - '0' as int
  }

  function DigitChar(d: nat): (c: char)
    requires d < 10
    ensures IsDigit(c) && DigitValue(c) == d
  {
    ('0' as int + d) as char
  }

  function Pow10(w: nat): (p: nat)
    ensures p >= 1
  {
    if w == 0 then 1 else 10 * Pow10(w - 1)
  }

  /** The greedy regular-expression group `(\d*)`: the longest prefix of `s`
      made of decimal digits. */
  function DigitRun(s: string): (ds: string)
    ensures |ds| <= |s| && ds == s[..|ds|]
    ensures AllDigits(ds)
    ensures |ds| < |s| ==> !IsDigit(s[|ds|])
  {
    if s != [] && IsDigit(s[0]) then [s[0]] + DigitRun(s[1..]) else []
  }

  /** `int(ds)` for a string of decimal digits (leading zeros allowed). */
  function DigitsValue(ds: string): (v: nat)
    requires AllDigits(ds)
    ensures v < Pow10(|ds|)
  {
    if ds == [] then 0 else DigitsValue(ds[..|ds| - 1]) * 10 + DigitValue(ds[|ds| - 1])
  }

  /** `str(n)`: the decimal spelling of `n`, without leading zeros. */
  function NatToDigits(n: nat): (ds: string)
    ensures |ds| >= 1 && AllDigits(ds) && DigitsValue(ds) == n
    ensures |ds| > 1 ==> ds[0] != '0'
  {
    if n < 10 then [DigitChar(n)]
    else
      var ds := NatToDigits(n / 10) + [DigitChar(n % 10)];
      assert ds[..|ds| - 1] == NatToDigits(n / 10);
      ds
  }

  /** `n` written with exactly `w` digits, zero-padded on the left (`%02d`, `%04d`). */
  function Fixed(n: nat, w: nat): (ds: string)
    requires n < Pow10(w)
    ensures |ds| == w && AllDigits(ds) && DigitsValue(ds) == n
  {
    if w == 0 then []
    else
      var ds := Fixed(n / 10, w - 1) + [DigitChar(n % 10)];
      assert ds[..|ds| - 1] == Fixed(n / 10, w - 1);
      ds
  }

  /** Appending a digit `d` to the digits of `a` and dividing by ten gives back `a` and `d`. */
  lemma DivModTen(a: nat, d: nat)
    requires d < 10
    ensures (a * 10 + d) / 10 == a && (a * 10 + d) % 10 == d
  {
  }

  /** Reading a digit string and writing it back at the same width gives it back. */
  lemma {:induction false} FixedOfValue(ds: string)
    requires AllDigits(ds)
    ensures Fixed(DigitsValue(ds), |ds|) == ds
  {
    if ds != [] {
      var init, last := ds[..|ds| - 1], ds[|ds| - 1];
      var a, d := DigitsValue(init), DigitValue(last);
      assert DigitsValue(ds) == a * 10 + d;
      DivModTen(a, d);
      FixedOfValue(init);
      calc {
        Fixed(DigitsValue(ds), |ds|);
        Fixed(a, |ds| - 1) + [DigitChar(d)];
        init + [last];
        ds;
      }
    }
  }

  /** The greedy digit run stops exactly where the digits stop. */
  lemma {:induction false} DigitRunOfDigits(ds: string, rest: string)
    requires AllDigits(ds)
    requires rest == [] || !IsDigit(rest[0])
    ensures DigitRun(ds + rest) == ds
  {
    if ds != [] {
      assert (ds + rest)[1..] == ds[1..] + rest;
      DigitRunOfDigits(ds[1..], rest);
    }
  }
}
