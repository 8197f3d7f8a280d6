/**
 * The email validator `is_valid_email` of youtube_summarizer.py.
 *
 * The source checks `re.match(r'^[a-zA-Z0-9._%+-]+@[a-zA-Z0-9.-]+\.[a-zA-Z]{2,}$', email)`.
 * `RegexAccepts` states what that pattern accepts, in the pattern's own shape: some split
 * of the string into local part, `@`, host, `.`, top-level label. `IsValidEmail` is the
 * executable check: it finds the first `@` and the last `.` instead of guessing a split.
 * `IsValidEmailMatchesRegex` proves that the two accept the same strings.
 *
 * Python's `$` (without MULTILINE) also matches just before one newline that ends the
 * string, so "a@b.co\n" is accepted as well; both definitions say so.
 */
module Email {
  import opened Common

  /** One character of the class `[a-zA-Z0-9._%+-]`. */
  predicate IsLocalChar(c: char) {
    ('a' <= c <= 'z') || ('A' <= c <= 'Z') || ('0' <= c <= '9') ||
    c == '.' || c == '_' || c == '%' || c == '+' || c == '-'
  }

  /** One character of the class `[a-zA-Z0-9.-]`. */
  predicate IsHostChar(c: char) {
    ('a' <= c <= 'z') || ('A' <= c <= 'Z') || ('0' <= c <= '9') || c == '.' || c == '-'
  }

  /** One character of the class `[a-zA-Z]`. */
  predicate IsAsciiLetter(c: char) {
    ('a' <= c <= 'z') || ('A' <= c <= 'Z')
  }

  predicate AllLocal(s: string) { forall i | 0 <= i < |s| :: IsLocalChar(s[i]) }
  predicate AllHost(s: string) { forall i | 0 <= i < |s| :: IsHostChar(s[i]) }
  predicate AllLetters(s: string) { forall i | 0 <= i < |s| :: IsAsciiLetter(s[i]) }

  // ---------------------------------------------------------------------------
  // Reference definition: the pattern, read as "there is a way to split the string".
  // ---------------------------------------------------------------------------

  /**
   * `s` is `local @ host . tld` with the `@` at `at` and the final `.` at `dot`:
   * `[a-zA-Z0-9._%+-]+` is s[..at], `[a-zA-Z0-9.-]+` is s[at+1..dot] and
   * `[a-zA-Z]{2,}` is s[dot+1..].
   */
  ghost predicate SplitsAt(s: string, at: int, dot: int) {
    0 < at && at + 1 < dot && dot + 2 < |s| &&
    AllLocal(s[..at]) && s[at] == '@' &&
    AllHost(s[at + 1..dot]) && s[dot] == '.' &&
    AllLetters(s[dot + 1..])
  }

  /** The whole of `s` is matched by the pattern without its trailing `$`. */
  ghost predicate WholeMatch(s: string) {
    exists at, dot :: SplitsAt(s, at, dot)
  }

  /** What `re.match` with the pattern accepts: a whole match, optionally followed by one newline. */
  ghost predicate RegexAccepts(s: string) {
    WholeMatch(s) || (|s| > 0 && s[|s| - 1] == '\n' && WholeMatch(s[..|s| - 1]))
  }

  // ---------------------------------------------------------------------------
  // Executable validator.
  // ---------------------------------------------------------------------------

  /** `d` is `[a-zA-Z0-9.-]+\.[a-zA-Z]{2,}` in full: split at its last dot. */
  predicate HostMatches(d: string) {
    match LastIndexOf(d, '.')
    case None => false
    case Some(k) => 0 < k && AllHost(d[..k]) && k + 2 < |d| && AllLetters(d[k + 1..])
  }

  /** `s` is the whole pattern: split at its first `@`. */
  predicate MatchesWhole(s: string) {
    match IndexOf(s, '@')
    case None => false
    case Some(i) => 0 < i && AllLocal(s[..i]) && HostMatches(s[i + 1..])
  }

  /** `is_valid_email(email)` is truthy. */
  predicate IsValidEmail(email: string) {
    MatchesWhole(email) ||
    (|email| > 0 && email[|email| - 1] == '\n' && MatchesWhole(email[..|email| - 1]))
  }

  // ---------------------------------------------------------------------------
  // Properties.
  // ---------------------------------------------------------------------------

  /** The split of a whole match is unique: the `@` is the first one and the `.` the last one. */
  lemma SplitIsForced(s: string, at: int, dot: int)
    requires SplitsAt(s, at, dot)
    ensures IndexOf(s, '@') == Some(at)
    ensures LastIndexOf(s[at + 1..], '.') == Some(dot - at - 1)
    ensures HostMatches(s[at + 1..])
  {
    var local := s[..at];
    forall j | 0 <= j < |local| ensures local[j] != '@' {
      assert IsLocalChar(local[j]);
    }
    IndexOfIsFirst(s, '@', at);
    var d := s[at + 1..];
    var k := dot - at - 1;
    assert d[..k] == s[at + 1..dot];
    assert d[k + 1..] == s[dot + 1..];
    HostSplitIsForced(d, k);
  }

  /** A host split as `[a-zA-Z0-9.-]+` `.` `[a-zA-Z]{2,}` at `k` is split at its last dot. */
  lemma HostSplitIsForced(d: string, k: nat)
    requires 0 < k && k + 2 < |d| && AllHost(d[..k]) && d[k] == '.' && AllLetters(d[k + 1..])
    ensures LastIndexOf(d, '.') == Some(k)
    ensures HostMatches(d)
  {
    var tld := d[k + 1..];
    forall j | 0 <= j < |tld| ensures tld[j] != '.' {
      assert IsAsciiLetter(tld[j]);
    }
    LastIndexOfIsLast(d, '.', k);
  }

  /** The executable check and the pattern agree on strings without the newline allowance. */
  lemma MatchesWholeIffWholeMatch(s: string)
    ensures MatchesWhole(s) <==> WholeMatch(s)
  {
    if MatchesWhole(s) {
      MatchesWholeGivesSplit(s);
    }
    if WholeMatch(s) {
      var at, dot :| SplitsAt(s, at, dot);
      SplitGivesMatchesWhole(s, at, dot);
    }
  }

  lemma MatchesWholeGivesSplit(s: string)
    requires MatchesWhole(s)
    ensures WholeMatch(s)
  {
    var at := IndexOf(s, '@').value;
    var d := s[at + 1..];
    var k := LastIndexOf(d, '.').value;
    var dot := at + 1 + k;
    assert AllLocal(s[..at]) && s[at] == '@';
    assert s[at + 1..dot] == d[..k] && AllHost(d[..k]);
    assert s[dot] == d[k] == '.';
    assert s[dot + 1..] == d[k + 1..] && AllLetters(d[k + 1..]);
    assert SplitsAt(s, at, dot);
  }

  lemma SplitGivesMatchesWhole(s: string, at: int, dot: int)
    requires SplitsAt(s, at, dot)
    ensures MatchesWhole(s)
  {
    SplitIsForced(s, at, dot);
  }

  /** `IsValidEmail` accepts exactly the strings that `re.match` with the source's pattern accepts. */
  lemma IsValidEmailMatchesRegex(s: string)
    ensures IsValidEmail(s) <==> RegexAccepts(s)
  {
    MatchesWholeIffWholeMatch(s);
    if |s| > 0 {
      MatchesWholeIffWholeMatch(s[..|s| - 1]);
    }
  }

  /** A host that matches `[a-zA-Z0-9.-]+\.[a-zA-Z]{2,}` holds no `@`. */
  lemma HostHasNoAt(d: string)
    requires HostMatches(d)
    ensures '@' !in d
  {
    var k := LastIndexOf(d, '.').value;
    forall j | 0 <= j < |d| ensures d[j] != '@' {
      if j < k {
        assert IsHostChar(d[..k][j]);
      } else if j > k {
        assert IsAsciiLetter(d[k + 1..][j - k - 1]);
      }
    }
  }

  /**
   * What an accepted string looks like: exactly one `@`, preceded by a non-empty local part of
   * `[a-zA-Z0-9._%+-]` and followed by a host that matches `[a-zA-Z0-9.-]+\.[a-zA-Z]{2,}`,
   * either to the end of the string or up to one final newline.
   */
  lemma ValidEmailShape(s: string)
    requires IsValidEmail(s)
    ensures IndexOf(s, '@').Some?
    ensures var at := IndexOf(s, '@').value;
      0 < at && AllLocal(s[..at]) && '@' !in s[at + 1..] &&
      (HostMatches(s[at + 1..]) || (s[|s| - 1] == '\n' && HostMatches(s[at + 1..|s| - 1])))
  {
    if MatchesWhole(s) {
      PlainShape(s);
    } else {
      NewlineShape(s);
    }
  }

  /** The half of `ValidEmailShape` without the newline allowance. */
  lemma PlainShape(s: string)
    requires MatchesWhole(s)
    ensures IndexOf(s, '@').Some?
    ensures var at := IndexOf(s, '@').value;
      0 < at && AllLocal(s[..at]) && '@' !in s[at + 1..] && HostMatches(s[at + 1..])
  {
    HostHasNoAt(s[IndexOf(s, '@').value + 1..]);
  }

  /** The newline half of `ValidEmailShape`: the `@` of the string before the newline is the string's only one. */
  lemma NewlineShape(s: string)
    requires |s| > 0 && s[|s| - 1] == '\n' && MatchesWhole(s[..|s| - 1])
    ensures IndexOf(s, '@') == IndexOf(s[..|s| - 1], '@')
    ensures var at := IndexOf(s[..|s| - 1], '@').value;
      0 < at && AllLocal(s[..at]) && '@' !in s[at + 1..] && HostMatches(s[at + 1..|s| - 1])
  {
    var e := s[..|s| - 1];
    var at := IndexOf(e, '@').value;
    assert e[..at] == s[..at];
    IndexOfIsFirst(s, '@', at);
    NewlineHostHasNoAt(s, at);
  }

  lemma NewlineHostHasNoAt(s: string, at: nat)
    requires |s| > 0 && s[|s| - 1] == '\n' && at < |s| - 1 && HostMatches(s[..|s| - 1][at + 1..])
    ensures '@' !in s[at + 1..] && HostMatches(s[at + 1..|s| - 1])
  {
    var d := s[..|s| - 1][at + 1..];
    assert d == s[at + 1..|s| - 1];
    HostHasNoAt(d);
    assert s[at + 1..] == d + ['\n'];
  }

  /** A string with no `@` is rejected. */
  lemma NoAtIsInvalid(s: string)
    requires '@' !in s
    ensures !IsValidEmail(s)
  {
    if IsValidEmail(s) {
      ValidEmailShape(s);
    }
  }

  /** An ordinary address is accepted. */
  lemma AcceptsPlainAddress()
    ensures IsValidEmail("user@example.com")
  {
    var s := "user@example.com";
    assert s[..4] == "user" && AllLocal("user");
    assert s[5..12] == "example" && AllHost("example");
    assert s[13..] == "com" && AllLetters("com");
    assert SplitsAt(s, 4, 12);
    SplitGivesMatchesWhole(s, 4, 12);
  }

  /** A one-letter top-level label is rejected. */
  lemma RejectsShortTopLevelLabel()
    ensures !IsValidEmail("user@example.c")
  {
    ShortLabelHostFails();
    assert "user@example.c"[5..] == "example.c";
    IndexOfIsFirst("user@example.c", '@', 4);
  }

  lemma ShortLabelHostFails()
    ensures !HostMatches("example.c")
  {
    LastIndexOfIsLast("example.c", '.', 7);
  }
}
