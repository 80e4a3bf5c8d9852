/**
 * The URL-shape check of the shortener (`is_valid_url`).
 *
 * The source matches one case-insensitive regular expression anchored at
 * both ends:
 *   scheme  `https?://`
 *   host    `(label.)+` TLD of 2 to 6 letters with an optional dot,
 *           or `localhost`, or four dot-separated groups of 1 to 3 digits
 *   port    an optional `:` followed by digits
 *   tail    nothing, a single `/`, or `/` or `?` followed by one or more
 *           non-whitespace characters
 * and `$` also matches just before one newline that ends the string.
 *
 * This module states that language declaratively (the `...Spec` predicates,
 * which quantify over where each part ends, as the regular expression's
 * backtracking does) and gives a hand-written recognizer (`IsValidUrl`) that
 * scans the string once; `IsValidUrlMeetsSpec` proves the two agree on every
 * string. Characters are ASCII: `\d` is '0'..'9', and `\s` is every ASCII
 * character `str.isspace` holds of: space, TAB, LF, VT, FF, CR and the four
 * separators FS, GS, RS, US.
 */
module UrlValidator {

  // ---------------------------------------------------------------------------
  // Character classes

  predicate IsDigit(c: char) { '0' <= c <= '9' }

  predicate IsLetter(c: char) { 'a' <= c <= 'z' || 'A' <= c <= 'Z' }

  predicate IsAlnum(c: char) { IsLetter(c) || IsDigit(c) }

  /** `[A-Z0-9-]` under IGNORECASE: what a domain label is made of. */
  predicate IsLabelChar(c: char) { IsAlnum(c) || c == '-' }

  /** Every character any host alternative can contain. */
  predicate IsHostChar(c: char) { IsLabelChar(c) || c == '.' }

  /** `\s` on ASCII: space, TAB, LF, VT, FF, CR and the separators FS, GS, RS, US (0x1C-0x1F). */
  predicate IsSpace(c: char) { c == ' ' || 9 <= c as int <= 13 || 28 <= c as int <= 31 }

  /** Folds an ASCII upper-case letter to lower case; other characters are kept. */
  function ToLower(c: char): (l: char)
    ensures IsLetter(c) <==> IsLetter(l)
    ensures !IsLetter(c) ==> l == c
    ensures 'a' <= c <= 'z' ==> l == c
    ensures 'A' <= c <= 'Z' ==> 'a' <= l <= 'z' && l as int - 'a' as int == c as int - 'A' as int
  {
    if 'A' <= c <= 'Z' then (c as int + 32) as char else c
  }

  /** `s` matches the literal `pattern` under IGNORECASE. */
  predicate EqualsIgnoreCase(s: string, pattern: string) {
    |s| == |pattern| && forall i :: 0 <= i < |s| ==> ToLower(s[i]) == ToLower(pattern[i])
  }

  // ---------------------------------------------------------------------------
  // The pieces of the pattern that are plain character-class conditions

  /** The character classes the pattern is built from. */
  datatype CharClass = HostChars | LabelChars | Letters | DigitChars | NonDotChars

  predicate InClass(c: char, cls: CharClass) {
    match cls
    case HostChars => IsHostChar(c)
    case LabelChars => IsLabelChar(c)
    case Letters => IsLetter(c)
    case DigitChars => IsDigit(c)
    case NonDotChars => c != '.'
  }

  /** Every character of `s[lo..hi]` is in the class. */
  predicate AllIn(s: string, lo: int, hi: int, cls: CharClass)
    requires 0 <= lo <= hi <= |s|
  {
    forall m :: lo <= m < hi ==> InClass(s[m], cls)
  }

  /** `[A-Z0-9](?:[A-Z0-9-]{0,61}[A-Z0-9])?` on `s[lo..hi]`: 1 to 63 characters, alphanumeric at both ends. */
  predicate IsLabelAt(s: string, lo: int, hi: int)
    requires 0 <= lo <= hi <= |s|
  {
    1 <= hi - lo <= 63 && IsAlnum(s[lo]) && IsAlnum(s[hi - 1]) && AllIn(s, lo, hi, LabelChars)
  }

  /** `[A-Z]{2,6}` on `s[lo..hi]`: the top-level domain. */
  predicate IsTldAt(s: string, lo: int, hi: int)
    requires 0 <= lo <= hi <= |s|
  {
    2 <= hi - lo <= 6 && AllIn(s, lo, hi, Letters)
  }

  /** `[A-Z]{2,6}\.?` on `s[lo..]`: the TLD with its optional trailing dot. */
  predicate IsTldPartFrom(s: string, lo: int)
    requires 0 <= lo <= |s|
  {
    IsTldAt(s, lo, |s|) || (lo < |s| && s[|s| - 1] == '.' && IsTldAt(s, lo, |s| - 1))
  }

  /** `\d{1,3}` on `s[lo..hi]`: one group of a dotted quad; no 0-255 range check. */
  predicate IsDigitGroupAt(s: string, lo: int, hi: int)
    requires 0 <= lo <= hi <= |s|
  {
    1 <= hi - lo <= 3 && AllIn(s, lo, hi, DigitChars)
  }

  /** `(?::\d+)?`: no port, or a colon and one or more digits. */
  predicate IsPort(s: string) {
    s == [] || (|s| >= 2 && s[0] == ':' && forall i :: 1 <= i < |s| ==> IsDigit(s[i]))
  }

  /** `(?:/?|[/?]\S+)`: nothing, one slash, or `/` or `?` and one or more non-whitespace characters. */
  predicate IsTail(s: string) {
    s == [] || s == "/" ||
    (|s| >= 2 && (s[0] == '/' || s[0] == '?') && forall i :: 1 <= i < |s| ==> !IsSpace(s[i]))
  }

  // ---------------------------------------------------------------------------
  // Declarative meaning of the regular expression

  /** `https?://` under IGNORECASE. */
  ghost predicate SchemeSpec(s: string) {
    EqualsIgnoreCase(s, "http://") || EqualsIgnoreCase(s, "https://")
  }

  /**
   * `(?:label\.)+` and the TLD part on `s[i..]`: one label and its dot, then
   * either the TLD part or more labels.
   */
  ghost predicate DomainSpecFrom(s: string, i: int)
    requires 0 <= i <= |s|
    decreases |s| - i, 1
  {
    exists k :: DomainStepSpec(s, i, k)
  }

  /** The first label of `s[i..]` ends at the dot at `k`, and what follows the dot is the TLD part or more labels. */
  ghost predicate DomainStepSpec(s: string, i: int, k: int)
    requires 0 <= i <= |s|
    decreases |s| - i, 0
  {
    i <= k < |s| && s[k] == '.' && IsLabelAt(s, i, k) &&
    (IsTldPartFrom(s, k + 1) || DomainSpecFrom(s, k + 1))
  }

  /** `\d{1,3}\.\d{1,3}\.\d{1,3}\.\d{1,3}`: three dots cut `s` into four digit groups. */
  ghost predicate Ipv4Spec(s: string) {
    exists a, b, c :: Ipv4SplitSpec(s, a, b, c)
  }

  /** Dots at `a`, `b` and `c` cut `s` into four digit groups. */
  ghost predicate Ipv4SplitSpec(s: string, a: int, b: int, c: int) {
    0 <= a < b < c < |s| && s[a] == '.' && s[b] == '.' && s[c] == '.' &&
    IsDigitGroupAt(s, 0, a) && IsDigitGroupAt(s, a + 1, b) &&
    IsDigitGroupAt(s, b + 1, c) && IsDigitGroupAt(s, c + 1, |s|)
  }

  /** The host alternatives: a domain name, `localhost` in any case, or a dotted quad. */
  ghost predicate HostSpec(s: string) {
    DomainSpecFrom(s, 0) || EqualsIgnoreCase(s, "localhost") || Ipv4Spec(s)
  }

  /** Scheme, host, port and tail cut `u` into four consecutive pieces. */
  ghost predicate SplitSpec(u: string, i: int, j: int, k: int) {
    0 <= i <= j <= k <= |u| &&
    SchemeSpec(u[..i]) && HostSpec(u[i..j]) && IsPort(u[j..k]) && IsTail(u[k..])
  }

  /** The whole of `u` matches the pattern, with `$` at the very end. */
  ghost predicate WholeSpec(u: string) {
    exists i, j, k :: SplitSpec(u, i, j, k)
  }

  /** `pattern.match(u)` succeeds: the pattern matches all of `u` or all but one final newline. */
  ghost predicate UrlSpec(u: string) {
    WholeSpec(u) || (|u| >= 1 && u[|u| - 1] == '\n' && WholeSpec(u[..|u| - 1]))
  }

  // ---------------------------------------------------------------------------
  // The recognizer

  /** The end of the longest run of `cls` characters in `s` that starts at `i`. */
  function ScanWhile(s: string, i: nat, cls: CharClass): (e: nat)
    requires i <= |s|
    ensures i <= e <= |s|
    ensures forall m :: i <= m < e ==> InClass(s[m], cls)
    ensures e < |s| ==> !InClass(s[e], cls)
    decreases |s| - i
  {
    if i < |s| && InClass(s[i], cls) then ScanWhile(s, i + 1, cls) else i
  }

  /** A run that ends at the first character outside the class is the longest run. */
  lemma ScanWhileUnique(s: string, i: nat, e: nat, cls: CharClass)
    requires i <= e <= |s|
    requires forall m :: i <= m < e ==> InClass(s[m], cls)
    requires e < |s| ==> !InClass(s[e], cls)
    ensures ScanWhile(s, i, cls) == e
  {
  }

  /** The length of the scheme `u` starts with, or 0 when it starts with neither. */
  function SchemeLength(u: string): (n: nat)
    ensures n <= |u|
    ensures n == 0 || SchemeSpec(u[..n])
  {
    if |u| >= 8 && EqualsIgnoreCase(u[..8], "https://") then 8
    else if |u| >= 7 && EqualsIgnoreCase(u[..7], "http://") then 7
    else 0
  }

  /** Recognizes `(?:label\.)+` and the TLD part on `s[i..]`, one label per call. */
  function IsDomainFrom(s: string, i: nat): bool
    requires i <= |s|
    decreases |s| - i
  {
    var d := ScanWhile(s, i, NonDotChars);
    d < |s| && IsLabelAt(s, i, d) && (IsTldPartFrom(s, d + 1) || IsDomainFrom(s, d + 1))
  }

  /** Recognizes a dotted quad by finding its three dots from the left. */
  function IsIpv4(s: string): bool {
    var a := ScanWhile(s, 0, NonDotChars);
    a < |s| &&
    var b := ScanWhile(s, a + 1, NonDotChars);
    b < |s| &&
    var c := ScanWhile(s, b + 1, NonDotChars);
    c < |s| &&
    IsDigitGroupAt(s, 0, a) && IsDigitGroupAt(s, a + 1, b) &&
    IsDigitGroupAt(s, b + 1, c) && IsDigitGroupAt(s, c + 1, |s|)
  }

  function IsHost(s: string): bool {
    IsDomainFrom(s, 0) || EqualsIgnoreCase(s, "localhost") || IsIpv4(s)
  }

  /** Where the port of `u` ends when its host ends at `j`. */
  function PortEnd(u: string, j: nat): (k: nat)
    requires j <= |u|
    ensures j <= k <= |u|
  {
    if j < |u| && u[j] == ':' then ScanWhile(u, j + 1, DigitChars) else j
  }

  /** Matches scheme, host, port and tail against the whole of `u`. */
  function MatchesWhole(u: string): bool {
    var i := SchemeLength(u);
    i > 0 &&
    var j := ScanWhile(u, i, HostChars);
    var k := PortEnd(u, j);
    IsHost(u[i..j]) && IsPort(u[j..k]) && IsTail(u[k..])
  }

  /** `is_valid_url(url)`. */
  function IsValidUrl(u: string): bool {
    MatchesWhole(u) || (|u| >= 1 && u[|u| - 1] == '\n' && MatchesWhole(u[..|u| - 1]))
  }

  // ---------------------------------------------------------------------------
  // The recognizer decides the declarative language

  /** The hand-written recognizer accepts exactly the strings the pattern matches. */
  lemma IsValidUrlMeetsSpec(u: string)
    ensures IsValidUrl(u) <==> UrlSpec(u)
  {
    MatchesWholeMeetsSpec(u);
    if |u| >= 1 {
      MatchesWholeMeetsSpec(u[..|u| - 1]);
    }
  }

  lemma MatchesWholeMeetsSpec(u: string)
    ensures MatchesWhole(u) <==> WholeSpec(u)
  {
    if MatchesWhole(u) {
      var i := SchemeLength(u);
      var j := ScanWhile(u, i, HostChars);
      var k := PortEnd(u, j);
      HostMeetsSpec(u[i..j]);
      assert SplitSpec(u, i, j, k);
    }
    if WholeSpec(u) {
      var i, j, k :| SplitSpec(u, i, j, k);
      SplitIsDetermined(u, i, j, k);
      HostMeetsSpec(u[i..j]);
    }
  }

  /** Any split the pattern admits is the one the recognizer computes. */
  lemma SplitIsDetermined(u: string, i: int, j: int, k: int)
    requires SplitSpec(u, i, j, k)
    ensures i == SchemeLength(u) && i > 0
    ensures j == ScanWhile(u, i, HostChars)
    ensures k == PortEnd(u, j)
  {
    SchemeIsDetermined(u, i);
    HostSpecChars(u[i..j]);
    forall m | i <= m < j ensures InClass(u[m], HostChars) {
      assert InClass(u[i..j][m - i], HostChars);
      assert u[m] == u[i..j][m - i];
    }
    if j < |u| {
      if j < k {
        assert u[j] == u[j..k][0];
      } else {
        assert u[j] == u[k..][0];
      }
    }
    ScanWhileUnique(u, i, j, HostChars);
    if j < k {
      assert u[j] == ':' by { assert u[j] == u[j..k][0]; }
      forall m | j + 1 <= m < k ensures InClass(u[m], DigitChars) {
        assert u[m] == u[j..k][m - j];
      }
      if k < |u| {
        assert u[k] == u[k..][0];
      }
      ScanWhileUnique(u, j + 1, k, DigitChars);
    } else if j < |u| {
      assert u[j] == u[k..][0];
    }
  }

  lemma SchemeIsDetermined(u: string, i: int)
    requires 0 <= i <= |u| && SchemeSpec(u[..i])
    ensures i == SchemeLength(u) && i > 0
  {
    if i == 7 {
      assert ToLower(u[..i][4]) == ':';
      assert u[4] == ':';
      if |u| >= 8 {
        assert u[..8][4] == u[4];
      }
    } else {
      assert u[..8] == u[..i];
    }
  }

  /** Every host the pattern admits is made of host characters only. */
  lemma HostSpecChars(s: string)
    requires HostSpec(s)
    ensures AllIn(s, 0, |s|, HostChars)
  {
    if DomainSpecFrom(s, 0) {
      DomainSpecChars(s, 0);
    } else if EqualsIgnoreCase(s, "localhost") {
      forall m | 0 <= m < |s| ensures InClass(s[m], HostChars) {
        assert IsLetter(ToLower("localhost"[m]));
      }
    } else {
      var a, b, c :| Ipv4SplitSpec(s, a, b, c);
      forall m | 0 <= m < |s| ensures InClass(s[m], HostChars) {
        if m != a && m != b && m != c {
          assert IsDigit(s[m]);
        }
      }
    }
  }

  lemma {:induction false} DomainSpecChars(s: string, i: int)
    requires 0 <= i <= |s| && DomainSpecFrom(s, i)
    ensures AllIn(s, i, |s|, HostChars)
    decreases |s| - i
  {
    var k :| DomainStepSpec(s, i, k);
    if !IsTldPartFrom(s, k + 1) {
      DomainSpecChars(s, k + 1);
    }
    forall m | i <= m < |s| ensures InClass(s[m], HostChars) {
      if m < k {
        assert IsLabelChar(s[m]);
      } else if k < m && IsTldPartFrom(s, k + 1) && m < |s| - 1 {
        assert IsLetter(s[m]);
      }
    }
  }

  /** The recognizer for hosts decides the pattern's host alternatives. */
  lemma HostMeetsSpec(s: string)
    ensures IsHost(s) <==> HostSpec(s)
  {
    DomainMeetsSpec(s, 0);
    Ipv4MeetsSpec(s);
  }

  lemma {:induction false} DomainMeetsSpec(s: string, i: int)
    requires 0 <= i <= |s|
    ensures IsDomainFrom(s, i) <==> DomainSpecFrom(s, i)
    decreases |s| - i
  {
    var d := ScanWhile(s, i, NonDotChars);
    if d < |s| {
      DomainMeetsSpec(s, d + 1);
      if IsDomainFrom(s, i) {
        assert DomainStepSpec(s, i, d);
      }
    }
    if DomainSpecFrom(s, i) {
      DomainStepIsDetermined(s, i);
    }
  }

  /** The dot that ends a domain's first label is the first dot. */
  lemma DomainStepIsDetermined(s: string, i: int)
    requires 0 <= i <= |s| && DomainSpecFrom(s, i)
    ensures DomainStepSpec(s, i, ScanWhile(s, i, NonDotChars))
  {
    var k :| DomainStepSpec(s, i, k);
    assert AllIn(s, i, k, LabelChars);
    ScanWhileUnique(s, i, k, NonDotChars);
  }

  lemma Ipv4MeetsSpec(s: string)
    ensures IsIpv4(s) <==> Ipv4Spec(s)
  {
    if IsIpv4(s) {
      var a := ScanWhile(s, 0, NonDotChars);
      var b := ScanWhile(s, a + 1, NonDotChars);
      var c := ScanWhile(s, b + 1, NonDotChars);
      assert Ipv4SplitSpec(s, a, b, c);
    }
    if Ipv4Spec(s) {
      var a, b, c :| Ipv4SplitSpec(s, a, b, c);
      Ipv4SplitIsDetermined(s, a, b, c);
    }
  }

  lemma Ipv4SplitIsDetermined(s: string, a: int, b: int, c: int)
    requires Ipv4SplitSpec(s, a, b, c)
    ensures IsIpv4(s)
  {
    assert AllIn(s, 0, a, DigitChars);
    ScanWhileUnique(s, 0, a, NonDotChars);
    assert AllIn(s, a + 1, b, DigitChars);
    ScanWhileUnique(s, a + 1, b, NonDotChars);
    assert AllIn(s, b + 1, c, DigitChars);
    ScanWhileUnique(s, b + 1, c, NonDotChars);
  }
}
