/**
 * The parts of Python's string and integer behaviour that the script relies
 * on: `str.lower`, `str.endswith`, `str.rfind`, `str.split(sep)`,
 * `sep.join(list)`, decimal formatting of integers in f-strings, and `int(text)`.
 */
module Text {
  import opened Wrappers

  predicate IsAsciiUpper(c: char) { 'A' <= c <= 'Z' }

  /** `str.lower` on one character; letters outside ASCII are kept as they are. */
  function LowerChar(c: char): char {
    if IsAsciiUpper(c) then (c as int + 32) as char else c
  }

  function Lower(s: string): (r: string)
    ensures |r| == |s|
    ensures forall i :: 0 <= i < |s| ==> r[i] == LowerChar(s[i])
  {
    if s == [] then [] else [LowerChar(s[0])] + Lower(s[1..])
  }

  /** Lower-casing twice is lower-casing once. */
  lemma LowerIdempotent(s: string)
    ensures Lower(Lower(s)) == Lower(s)
  {
    forall i | 0 <= i < |s| ensures Lower(Lower(s))[i] == Lower(s)[i] {
      assert !IsAsciiUpper(LowerChar(s[i]));
    }
  }

  /** Lower-casing distributes over concatenation. */
  lemma LowerConcat(a: string, b: string)
    ensures Lower(a + b) == Lower(a) + Lower(b)
  {
    assert forall i :: 0 <= i < |a + b| ==> Lower(a + b)[i] == (Lower(a) + Lower(b))[i];
  }

  /** Lower-casing commutes with taking a suffix. */
  lemma LowerSuffix(s: string, k: nat)
    requires k <= |s|
    ensures Lower(s[k..]) == Lower(s)[k..]
  {
    forall i | 0 <= i < |s| - k ensures Lower(s[k..])[i] == Lower(s)[k..][i] {
      assert s[k..][i] == s[k + i];
    }
  }

  predicate StartsWith(s: string, prefix: string) {
    |prefix| <= |s| && s[..|prefix|] == prefix
  }

  /** `s.endswith(suffix)` */
  predicate EndsWith(s: string, suffix: string) {
    |suffix| <= |s| && s[|s| - |suffix|..] == suffix
  }

  /** `s.rfind(c)`: the last position of `c` in `s`, or -1 when there is none. */
  function LastIndexOf(s: string, c: char): (r: int)
    ensures -1 <= r < |s|
  {
    LastIndexBelow(s, c, |s|)
  }

  /** The last position of `c` among the first `n` characters of `s`, or -1. */
  function LastIndexBelow(s: string, c: char, n: nat): (r: int)
    requires n <= |s|
    ensures -1 <= r < n
  {
    if n == 0 then -1
    else if s[n - 1] == c then n - 1
    else LastIndexBelow(s, c, n - 1)
  }

  lemma {:induction false} LastIndexBelowFound(s: string, c: char, n: nat)
    requires n <= |s|
    ensures var r := LastIndexBelow(s, c, n);
      && (r >= 0 ==> s[r] == c)
      && forall k :: r < k < n ==> s[k] != c
  {
    if n > 0 && s[n - 1] != c {
      LastIndexBelowFound(s, c, n - 1);
    }
  }

  /** `s.rfind(c)` finds `c`, and no `c` comes after it. */
  lemma LastIndexOfFound(s: string, c: char)
    ensures var r := LastIndexOf(s, c);
      && (r >= 0 ==> s[r] == c)
      && forall k :: r < k < |s| ==> s[k] != c
  {
    LastIndexBelowFound(s, c, |s|);
  }

  lemma {:induction false} LastIndexBelowUnique(s: string, c: char, n: nat, r: int)
    requires n <= |s| && -1 <= r < n
    requires r >= 0 ==> s[r] == c
    requires forall k :: r < k < n ==> s[k] != c
    ensures LastIndexBelow(s, c, n) == r
  {
    if n > 0 && r < n - 1 {
      LastIndexBelowUnique(s, c, n - 1, r);
    }
  }

  /** The two properties of `s.rfind(c)` determine it. */
  lemma LastIndexOfUnique(s: string, c: char, r: int)
    requires -1 <= r < |s|
    requires r >= 0 ==> s[r] == c
    requires forall k :: r < k < |s| ==> s[k] != c
    ensures LastIndexOf(s, c) == r
  {
    LastIndexBelowUnique(s, c, |s|, r);
  }

  /** In a suffix, `rfind` finds the same `c`, if it lies in the suffix. */
  lemma LastIndexOfSuffix(s: string, c: char, o: nat)
    requires o <= |s|
    ensures var r := LastIndexOf(s, c);
      LastIndexOf(s[o..], c) == if r >= o then r - o else -1
  {
    var r := LastIndexOf(s, c);
    var t := s[o..];
    var r' := if r >= o then r - o else -1;
    LastIndexOfFound(s, c);
    assert r' >= 0 ==> t[r'] == s[r];
    forall k | r' < k < |t| ensures t[k] != c {
      assert t[k] == s[o + k];
    }
    LastIndexOfUnique(t, c, r');
  }

  /** Number of occurrences of `c` in `s`. */
  function Count(s: string, c: char): nat {
    if s == [] then 0 else Count(s[..|s| - 1], c) + (if s[|s| - 1] == c then 1 else 0)
  }

  /** `s.split(sep)` for a one-character separator: the pieces between separators, empty ones included. */
  function Split(s: string, sep: char): (parts: seq<string>)
    ensures |parts| >= 1
    ensures forall i :: 0 <= i < |parts| ==> sep !in parts[i]
  {
    if s == [] then [""]
    else
      var init := Split(s[..|s| - 1], sep);
      var last := s[|s| - 1];
      if last == sep then init + [""]
      else init[..|init| - 1] + [init[|init| - 1] + [last]]
  }

  /** `sep.join(parts)` for a one-character separator. */
  function Join(parts: seq<string>, sep: char): string {
    if parts == [] then ""
    else if |parts| == 1 then parts[0]
    else Join(parts[..|parts| - 1], sep) + [sep] + parts[|parts| - 1]
  }

  /** Splitting yields one more piece than there are separators. */
  lemma {:induction false} SplitCount(s: string, sep: char)
    ensures |Split(s, sep)| == Count(s, sep) + 1
  {
    if s != [] {
      SplitCount(s[..|s| - 1], sep);
    }
  }

  /** Joining the pieces of a split gives back the original string. */
  lemma {:induction false} JoinSplit(s: string, sep: char)
    ensures Join(Split(s, sep), sep) == s
  {
    if s != [] {
      var t := s[..|s| - 1];
      var c := s[|s| - 1];
      var p := Split(t, sep);
      JoinSplit(t, sep);
      assert s == t + [c];
      if c == sep {
        assert (p + [""])[..|p|] == p;
      } else {
        var n := |p|;
        var q := p[..n - 1] + [p[n - 1] + [c]];
        if n > 1 {
          assert q[..n - 1] == p[..n - 1];
          assert Join(p, sep) == Join(p[..n - 1], sep) + [sep] + p[n - 1];
          assert Join(q, sep) == Join(p[..n - 1], sep) + [sep] + (p[n - 1] + [c]);
        }
      }
    }
  }

  /** A string without separators splits into itself. */
  lemma {:induction false} SplitNoSeparator(s: string, sep: char)
    requires sep !in s
    ensures Split(s, sep) == [s]
  {
    if s != [] {
      assert sep !in s[..|s| - 1];
      SplitNoSeparator(s[..|s| - 1], sep);
      assert s[..|s| - 1] + [s[|s| - 1]] == s;
    }
  }

  /** Appending a separator and a separator-free piece adds exactly that piece. */
  lemma {:induction false} SplitAppend(s: string, sep: char, y: string)
    requires sep !in y
    ensures Split(s + [sep] + y, sep) == Split(s, sep) + [y]
  {
    if y == [] {
      assert s + [sep] + y == s + [sep];
      assert (s + [sep])[..|s|] == s;
    } else {
      var y' := y[..|y| - 1];
      assert sep !in y';
      SplitAppend(s, sep, y');
      var whole := s + [sep] + y;
      assert whole[..|whole| - 1] == s + [sep] + y';
      assert y' + [y[|y| - 1]] == y;
    }
  }

  /** Splitting a join of separator-free pieces gives back the pieces. */
  lemma {:induction false} SplitJoin(parts: seq<string>, sep: char)
    requires |parts| >= 1
    requires forall i :: 0 <= i < |parts| ==> sep !in parts[i]
    ensures Split(Join(parts, sep), sep) == parts
  {
    if |parts| == 1 {
      SplitNoSeparator(parts[0], sep);
    } else {
      var init := parts[..|parts| - 1];
      SplitJoin(init, sep);
      SplitAppend(Join(init, sep), sep, parts[|parts| - 1]);
      assert init + [parts[|parts| - 1]] == parts;
    }
  }

  predicate IsDigit(c: char) { '0' <= c <= '9' }

  predicate AllDigits(s: string) { forall i :: 0 <= i < |s| ==> IsDigit(s[i]) }

  function DigitChar(d: nat): (c: char)
    requires d < 10
    ensures IsDigit(c)
  {
    ('0' as int + d) as char
  }

  /** Decimal digits of `n` without leading zeros, as `f'{n}'` prints them. */
  function ShowNat(n: nat): (s: string)
    ensures |s| >= 1 && AllDigits(s)
    ensures s[0] == '0' ==> n == 0
  {
    if n < 10 then [DigitChar(n)] else ShowNat(n / 10) + [DigitChar(n % 10)]
  }

  /** `f'{i}'` for any integer. */
  function ShowInt(i: int): string {
    if i < 0 then "-" + ShowNat(-i) else ShowNat(i)
  }

  /** The value of a string of decimal digits (leading zeros allowed). */
  function DigitsValue(s: string): nat
    requires AllDigits(s)
  {
    if s == [] then 0 else DigitsValue(s[..|s| - 1]) * 10 + (s[|s| - 1] as int - '0' as int)
  }

  /** Reading back the printed digits gives the number. */
  lemma {:induction false} ShowNatRoundTrip(n: nat)
    ensures DigitsValue(ShowNat(n)) == n
  {
    if n >= 10 {
      ShowNatRoundTrip(n / 10);
      var s := ShowNat(n);
      assert s[..|s| - 1] == ShowNat(n / 10);
    }
  }

  /**
   * The white space `int(text)` skips around its digits: the ASCII
   * characters tab, line feed, vertical tab, form feed, carriage return and
   * space, and every non-ASCII character for which `str.isspace` holds. The
   * ASCII separators 0x1C to 0x1F, which `str.isspace` also accepts, are
   * not skipped.
   */
  predicate IsSpace(c: char) {
    var n := c as int;
    || (0x09 <= n <= 0x0D) || n == 0x20 || n == 0x85 || n == 0xA0 || n == 0x1680
    || (0x2000 <= n <= 0x200A) || n == 0x2028 || n == 0x2029 || n == 0x202F || n == 0x205F
    || n == 0x3000
  }

  function StripLeft(s: string): (t: string)
    ensures t == [] || !IsSpace(t[0])
  {
    if s != [] && IsSpace(s[0]) then StripLeft(s[1..]) else s
  }

  function StripRight(s: string): (t: string)
    ensures t == [] || !IsSpace(t[|t| - 1])
  {
    if s != [] && IsSpace(s[|s| - 1]) then StripRight(s[..|s| - 1]) else s
  }

  /** The text `int(text)` reads once the white space around it is skipped. */
  function Strip(s: string): string {
    StripRight(StripLeft(s))
  }

  /** Digits with single underscores between them, as `int(text)` accepts after the sign. */
  predicate IsDigitGroups(s: string) {
    && |s| >= 1 && IsDigit(s[0]) && IsDigit(s[|s| - 1])
    && (forall i :: 0 <= i < |s| ==> IsDigit(s[i]) || s[i] == '_')
    && (forall i, j :: 0 <= i < |s| - 1 && j == i + 1 ==> s[i] != '_' || s[j] != '_')
  }

  function RemoveUnderscores(s: string): (d: string)
    requires forall i :: 0 <= i < |s| ==> IsDigit(s[i]) || s[i] == '_'
    ensures AllDigits(d)
  {
    if s == [] then []
    else (if s[0] == '_' then [] else [s[0]]) + RemoveUnderscores(s[1..])
  }

  /**
   * `int(text)` in base 10: surrounding white space is stripped, an optional
   * sign is read, and the rest must be digit groups; None stands for the
   * ValueError Python raises.
   */
  function ParseInt(text: string): Option<int> {
    var t := Strip(text);
    var signed := |t| > 0 && (t[0] == '-' || t[0] == '+');
    var body := if signed then t[1..] else t;
    if IsDigitGroups(body) then
      var magnitude: int := DigitsValue(RemoveUnderscores(body));
      Some(if signed && t[0] == '-' then -magnitude else magnitude)
    else None
  }

  lemma {:induction false} RemoveUnderscoresOfDigits(s: string)
    requires AllDigits(s)
    ensures RemoveUnderscores(s) == s
  {
    if s != [] {
      RemoveUnderscoresOfDigits(s[1..]);
    }
  }

  /** Stripping leaves a string alone whose ends are not white space. */
  lemma StripUnpadded(s: string)
    requires |s| >= 1 && !IsSpace(s[0]) && !IsSpace(s[|s| - 1])
    ensures Strip(s) == s
  {
  }

  lemma {:induction false} DigitGroupsOfDigits(s: string)
    requires |s| >= 1 && AllDigits(s)
    ensures IsDigitGroups(s) && RemoveUnderscores(s) == s
  {
    RemoveUnderscoresOfDigits(s);
  }

  /** Python reads back every integer it prints. */
  lemma ParseIntShowInt(i: int)
    ensures ParseInt(ShowInt(i)) == Some(i)
  {
    var s := ShowInt(i);
    var m: nat := if i < 0 then -i else i;
    var digits := ShowNat(m);
    assert s == if i < 0 then "-" + digits else digits;
    assert IsDigit(digits[0]) && IsDigit(digits[|digits| - 1]);
    StripUnpadded(s);
    DigitGroupsOfDigits(digits);
    ShowNatRoundTrip(m);
    var body := if i < 0 then s[1..] else s;
    assert body == digits;
    assert (|s| > 0 && (s[0] == '-' || s[0] == '+')) == (i < 0);
  }

}
