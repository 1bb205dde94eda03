/** String helpers that JavaScript provides as built-ins: number-to-string
    conversion of a non-negative integer (template literals), `startsWith`,
    ASCII upper-casing, and `String.prototype.split` on one separator
    character. */
module Text {

  predicate IsDigit(c: char) {
    '0' <= c <= '9'
  }

  predicate AllDigits(s: string) {
    forall i :: 0 <= i < |s| ==> IsDigit(s[i])
  }

  function DigitChar(d: nat): (c: char)
    requires d < 10
    ensures IsDigit(c) && (c as int) - ('0' as int) == d
  {
    ('0' as int + d) as char
  }

  function DigitValue(c: char): nat
    requires IsDigit(c)
  {
    (c as int) - ('0' as int)
  }

  /** `${n}` for a non-negative integer: its decimal digits, with no leading zero. */
  function Decimal(n: nat): (s: string)
    ensures |s| >= 1 && AllDigits(s)
    ensures s[0] == '0' ==> n == 0
    decreases n
  {
    if n < 10 then [DigitChar(n)] else Decimal(n / 10) + [DigitChar(n % 10)]
  }

  /** Reads a non-empty string of decimal digits back as a number. */
  function ParseDecimal(s: string): nat
    requires |s| >= 1 && AllDigits(s)
  {
    if |s| == 1 then DigitValue(s[0])
    else 10 * ParseDecimal(s[..|s| - 1]) + DigitValue(s[|s| - 1])
  }

  lemma {:induction false} ParseDecimalOfDecimal(n: nat)
    ensures ParseDecimal(Decimal(n)) == n
    decreases n
  {
    if n >= 10 {
      var s := Decimal(n);
      assert s[..|s| - 1] == Decimal(n / 10);
      ParseDecimalOfDecimal(n / 10);
    }
  }

  /** Distinct numbers are written differently. */
  lemma DecimalInjective(m: nat, n: nat)
    requires Decimal(m) == Decimal(n)
    ensures m == n
  {
    ParseDecimalOfDecimal(m);
    ParseDecimalOfDecimal(n);
  }

  predicate StartsWith(s: string, prefix: string) {
    |prefix| <= |s| && s[..|prefix|] == prefix
  }

  predicate EndsWith(s: string, suffix: string) {
    |suffix| <= |s| && s[|s| - |suffix|..] == suffix
  }

  predicate IsAsciiLower(c: char) {
    'a' <= c <= 'z'
  }

  /** `toUpperCase` restricted to ASCII: 'a'..'z' become 'A'..'Z', every
      other character is kept. */
  function AsciiUpper(c: char): (u: char)
    ensures !IsAsciiLower(u)
    ensures IsAsciiLower(c) ==> (u as int) == (c as int) - 32
    ensures !IsAsciiLower(c) ==> u == c
  {
    if IsAsciiLower(c) then ((c as int) - 32) as char else c
  }

  function UpperString(s: string): (u: string)
    ensures |u| == |s|
    ensures forall i :: 0 <= i < |s| ==> u[i] == AsciiUpper(s[i])
  {
    seq(|s|, i requires 0 <= i < |s| => AsciiUpper(s[i]))
  }

  /** `s.split(sep)`: the maximal separator-free pieces between separators.
      Written from the right-hand end so that the last piece is the one
      the recursion builds. */
  function Split(s: string, sep: char): (parts: seq<string>)
    ensures |parts| >= 1
    ensures forall i :: 0 <= i < |parts| ==> sep !in parts[i]
    decreases |s|
  {
    if s == [] then [""]
    else
      var init := Split(s[..|s| - 1], sep);
      var c := s[|s| - 1];
      if c == sep then init + [""]
      else init[..|init| - 1] + [init[|init| - 1] + [c]]
  }

  /** `parts.join(sep)`, the inverse of `Split`. */
  function Join(parts: seq<string>, sep: char): string
    requires |parts| >= 1
  {
    if |parts| == 1 then parts[0]
    else Join(parts[..|parts| - 1], sep) + [sep] + parts[|parts| - 1]
  }

  lemma {:induction false} JoinSplit(s: string, sep: char)
    ensures Join(Split(s, sep), sep) == s
    decreases |s|
  {
    if s != [] {
      var s' := s[..|s| - 1];
      var c := s[|s| - 1];
      assert s == s' + [c];
      JoinSplit(s', sep);
      var init := Split(s', sep);
      if c == sep {
        assert Split(s, sep) == init + [""];
        JoinAppendEmpty(init, sep);
      } else {
        assert Split(s, sep) == init[..|init| - 1] + [init[|init| - 1] + [c]];
        JoinExtendLast(init, c, sep);
      }
    }
  }

  lemma JoinAppendEmpty(parts: seq<string>, sep: char)
    requires |parts| >= 1
    ensures Join(parts + [""], sep) == Join(parts, sep) + [sep]
  {
    var all := parts + [""];
    assert all[..|all| - 1] == parts;
  }

  lemma JoinExtendLast(parts: seq<string>, c: char, sep: char)
    requires |parts| >= 1
    ensures Join(parts[..|parts| - 1] + [parts[|parts| - 1] + [c]], sep) == Join(parts, sep) + [c]
  {
    var k := |parts| - 1;
    var all := parts[..k] + [parts[k] + [c]];
    if k > 0 {
      assert all[..|all| - 1] == parts[..k];
      assert Join(all, sep) == Join(parts[..k], sep) + [sep] + (parts[k] + [c]);
    }
  }

  function Last(parts: seq<string>): string
    requires |parts| >= 1
  {
    parts[|parts| - 1]
  }

  /** The last piece of `s.split(sep)` is the suffix of `s` after its last
      separator (all of `s` when there is none). */
  lemma {:induction false} LastPieceIsSuffixAfterLastSep(s: string, sep: char)
    ensures var r := Last(Split(s, sep));
      && sep !in r
      && |r| <= |s| && s[|s| - |r|..] == r
      && (|r| < |s| ==> s[|s| - |r| - 1] == sep)
    decreases |s|
  {
    if s != [] {
      var s' := s[..|s| - 1];
      LastPieceIsSuffixAfterLastSep(s', sep);
      var r' := Last(Split(s', sep));
      var r := Last(Split(s, sep));
      if s[|s| - 1] != sep {
        assert r == r' + [s[|s| - 1]];
        assert s == s' + [s[|s| - 1]];
        assert s[|s| - |r|..] == s'[|s'| - |r'|..] + [s[|s| - 1]];
      }
    }
  }

  /** A separator-free suffix `u` of `s` lies wholly after every separator of `s`. */
  lemma SeparatorBeforeSepFreeSuffix(s: string, u: string, k: nat, sep: char)
    requires |u| <= |s| && s[|s| - |u|..] == u && sep !in u
    requires k < |s| && s[k] == sep
    ensures k < |s| - |u|
  {
    assert forall i :: 0 <= i < |u| ==> u[i] == s[|s| - |u| + i];
  }

  /** The suffix description pins the last piece down: a separator-free
      string placed after a separator is what the last piece yields. */
  lemma LastPieceAfterSeparator(p: string, t: string, sep: char)
    requires |p| >= 1 && p[|p| - 1] == sep
    requires sep !in t
    ensures Last(Split(p + t, sep)) == t
  {
    var s := p + t;
    LastPieceIsSuffixAfterLastSep(s, sep);
    var r := Last(Split(s, sep));
    SeparatorBeforeSepFreeSuffix(s, r, |p| - 1, sep);
    assert s[|s| - |t|..] == t;
    if |r| < |s| {
      SeparatorBeforeSepFreeSuffix(s, t, |s| - |r| - 1, sep);
    }
  }
}
