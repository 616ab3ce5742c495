/**
 * The e-mail check shared by the login, register and reset-password paths:
 * `matches(Regex("^[A-Za-z0-9+_.-]+@[A-Za-z0-9.-]+$"))`, a whole-string match.
 */
module EmailFormat {
  import opened Text

  predicate IsAsciiAlnum(c: char) {
    ('A' <= c <= 'Z') || ('a' <= c <= 'z') || ('0' <= c <= '9')
  }

  /** The class `[A-Za-z0-9+_.-]` before the '@'. */
  predicate IsLocalChar(c: char) {
    IsAsciiAlnum(c) || c == '+' || c == '_' || c == '.' || c == '-'
  }

  /** The class `[A-Za-z0-9.-]` after the '@'. */
  predicate IsDomainChar(c: char) {
    IsAsciiAlnum(c) || c == '.' || c == '-'
  }

  /** The regular expression read declaratively: some '@' splits `s` into two non-empty runs of the two classes. */
  ghost predicate MatchesPattern(s: string) {
    exists at :: 0 < at < |s| - 1 && s[at] == '@'
      && (forall i :: 0 <= i < at ==> IsLocalChar(s[i]))
      && (forall i :: at < i < |s| ==> IsDomainChar(s[i]))
  }

  /** Length of the leading run of local-part characters. */
  function LocalRun(s: string): (n: nat)
    ensures n <= |s|
    ensures forall i :: 0 <= i < n ==> IsLocalChar(s[i])
    ensures n < |s| ==> !IsLocalChar(s[n])
  {
    if |s| == 0 || !IsLocalChar(s[0]) then 0 else 1 + LocalRun(s[1..])
  }

  predicate AllDomainChars(s: string) {
    forall i :: 0 <= i < |s| ==> IsDomainChar(s[i])
  }

  /** Everything after position `at` is a domain character. */
  lemma DomainTail(s: string, at: nat)
    requires at < |s|
    ensures AllDomainChars(s[at + 1..]) <==> forall i :: at < i < |s| ==> IsDomainChar(s[i])
  {
    if AllDomainChars(s[at + 1..]) {
      forall i | at < i < |s| ensures IsDomainChar(s[i]) {
        assert s[i] == s[at + 1..][i - at - 1];
      }
    }
  }

  /** The scan's condition: the maximal local run is followed by '@' and a domain run to the end. */
  predicate ScanMatches(s: string) {
    var at := LocalRun(s);
    0 < at < |s| - 1 && s[at] == '@' && AllDomainChars(s[at + 1..])
  }

  /** The scan accepts exactly the strings the pattern describes. */
  lemma ScanIsPattern(s: string)
    ensures ScanMatches(s) <==> MatchesPattern(s)
  {
    var at := LocalRun(s);
    if ScanMatches(s) {
      DomainTail(s, at);
    }
    if MatchesPattern(s) {
      var k :| 0 < k < |s| - 1 && s[k] == '@'
        && (forall i :: 0 <= i < k ==> IsLocalChar(s[i]))
        && (forall i :: k < i < |s| ==> IsDomainChar(s[i]));
      // '@' is not a local character, so the maximal run stops exactly at it.
      assert at == k;
      DomainTail(s, k);
    }
  }

  /** `matches(Regex("^[A-Za-z0-9+_.-]+@[A-Za-z0-9.-]+$"))`, computed by the scan. */
  function MatchesEmail(s: string): (b: bool)
    ensures b <==> MatchesPattern(s)
  {
    ScanIsPattern(s);
    ScanMatches(s)
  }

  /** A matching address is never blank: neither class holds a whitespace character. */
  lemma MatchImpliesNotBlank(s: string)
    requires MatchesEmail(s)
    ensures !IsBlank(s)
  {
    assert IsLocalChar(s[0]);
  }

  /** A matching address contains exactly one '@'. */
  lemma MatchHasOneAt(s: string)
    requires MatchesEmail(s)
    ensures multiset(s)['@'] == 1
  {
    var at := LocalRun(s);
    assert s == s[..at] + [s[at]] + s[at + 1..];
    assert '@' !in s[..at] by {
      forall i | 0 <= i < at ensures s[..at][i] != '@' { assert IsLocalChar(s[i]); }
    }
    assert '@' !in s[at + 1..] by {
      assert AllDomainChars(s[at + 1..]);
    }
  }
}
