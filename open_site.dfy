/**
 * Resolution of the target of an "open ..." command to the address the
 * assistant opens. The target arrives trimmed and lower-cased; the rules are
 * tried in order:
 *   1. a full http(s) address (`/^https?:\/\/[^\s]+$/`) is used as it is;
 *   2. a bare domain (`/^[^\s]+\.[a-z]{2,}$/`) gets `https://` in front;
 *   3. a known name anywhere in the target maps to that site;
 *   4. otherwise all whitespace is removed and the result wrapped as
 *      `https://<target>.com`.
 */
module OpenSite {
  import opened JsText

  predicate AllLowerLetters(s: string) {
    forall k :: 0 <= k < |s| ==> 'a' <= s[k] <= 'z'
  }

  /** `/^https?:\/\/[^\s]+$/`: the scheme, then at least one non-whitespace character up to the end. */
  predicate IsFullUrl(s: string) {
    (StartsWith(s, "http://") && |s| > 7 && NoWhiteSpace(s[7..]))
    || (StartsWith(s, "https://") && |s| > 8 && NoWhiteSpace(s[8..]))
  }

  /** `/^[^\s]+\.[a-z]{2,}$/`: no whitespace, and a dot after the first character followed by two or more letters a-z to the end. */
  predicate IsBareDomain(s: string) {
    NoWhiteSpace(s) && exists k :: 1 <= k && k + 3 <= |s| && s[k] == '.' && AllLowerLetters(s[k + 1..])
  }

  /** `https://` in front of a non-empty, whitespace-free rest. */
  function Https(rest: string): (url: string)
    requires rest != [] && NoWhiteSpace(rest)
    ensures IsFullUrl(url) && url[8..] == rest
  {
    var url := "https://" + rest;
    assert url[..8] == "https://" && url[8..] == rest;
    url
  }

  /** A visible ASCII character is never whitespace. */
  predicate IsVisibleAscii(c: char) { '!' <= c <= '~' }

  predicate AllVisible(s: string) {
    forall k :: 0 <= k < |s| ==> IsVisibleAscii(s[k])
  }

  lemma VisibleIsFull(rest: string)
    requires rest != [] && AllVisible(rest)
    ensures IsFullUrl("https://" + rest)
  {
    assert Https(rest) == "https://" + rest;
  }

  lemma YouTubeIsFull() ensures IsFullUrl("https://www.youtube.com") {
    VisibleIsFull("www.youtube.com");
    assert "https://" + "www.youtube.com" == "https://www.youtube.com";
  }
  lemma GoogleIsFull() ensures IsFullUrl("https://www.google.com") {
    VisibleIsFull("www.google.com");
    assert "https://" + "www.google.com" == "https://www.google.com";
  }
  lemma FacebookIsFull() ensures IsFullUrl("https://www.facebook.com") {
    VisibleIsFull("www.facebook.com");
    assert "https://" + "www.facebook.com" == "https://www.facebook.com";
  }
  lemma TwitterIsFull() ensures IsFullUrl("https://www.twitter.com") {
    VisibleIsFull("www.twitter.com");
    assert "https://" + "www.twitter.com" == "https://www.twitter.com";
  }
  lemma GitHubIsFull() ensures IsFullUrl("https://www.github.com") {
    VisibleIsFull("www.github.com");
    assert "https://" + "www.github.com" == "https://www.github.com";
  }

  function ResolveUrl(site: string): string
  {
    if IsFullUrl(site) then site
    else if IsBareDomain(site) then Https(site)
    else if Contains(site, "youtube") then "https://www.youtube.com"
    else if Contains(site, "google") then "https://www.google.com"
    else if Contains(site, "facebook") then "https://www.facebook.com"
    else if Contains(site, "twitter") then "https://www.twitter.com"
    else if Contains(site, "github") then "https://www.github.com"
    else Https(StripWhiteSpace(site) + ".com")
  }

  /** Resolution always yields a full http(s) address. */
  lemma ResolveIsFull(site: string)
    ensures IsFullUrl(ResolveUrl(site))
  {
    if IsFullUrl(site) || IsBareDomain(site) {
    } else if Contains(site, "youtube") {
      YouTubeIsFull();
    } else if Contains(site, "google") {
      GoogleIsFull();
    } else if Contains(site, "facebook") {
      FacebookIsFull();
    } else if Contains(site, "twitter") {
      TwitterIsFull();
    } else if Contains(site, "github") {
      GitHubIsFull();
    }
  }

  /** An address that resolution produced is resolved to itself. */
  lemma ResolveIdempotent(site: string)
    ensures ResolveUrl(ResolveUrl(site)) == ResolveUrl(site)
  {
    ResolveIsFull(site);
  }

  lemma BareDomainRule(site: string)
    requires !IsFullUrl(site) && IsBareDomain(site)
    ensures ResolveUrl(site) == "https://" + site
  {
  }

  lemma YouTubeComIsBare(site: string)
    requires site == "youtube.com"
    ensures !IsFullUrl(site) && IsBareDomain(site)
  {
    NotStartsWith(site, "http://", 0);
    NotStartsWith(site, "https://", 0);
    assert forall k :: 0 <= k < |site| ==> !IsWhiteSpace(site[k]);
    var tld := site[8..];
    assert tld == "com";
    assert site[7] == '.' && AllLowerLetters(tld);
  }

  /** A bare domain is taken before the known-name rule: "youtube.com" is not sent to www.youtube.com. */
  lemma BareDomainBeforeKnownName()
    ensures ResolveUrl("youtube.com") == "https://" + "youtube.com"
  {
    YouTubeComIsBare("youtube.com");
    BareDomainRule("youtube.com");
  }

  /** None of the five known names occurs in the target. */
  predicate NoKnownName(site: string) {
    !Contains(site, "youtube") && !Contains(site, "google") && !Contains(site, "facebook")
    && !Contains(site, "twitter") && !Contains(site, "github")
  }

  lemma FallbackRule(site: string)
    requires !IsFullUrl(site) && !IsBareDomain(site) && NoKnownName(site)
    ensures ResolveUrl(site) == "https://" + StripWhiteSpace(site) + ".com"
  {
  }

  lemma GitHubRule(site: string)
    requires !IsFullUrl(site) && !IsBareDomain(site)
    requires !Contains(site, "youtube") && !Contains(site, "google") && !Contains(site, "facebook")
    requires !Contains(site, "twitter") && Contains(site, "github")
    ensures ResolveUrl(site) == "https://www.github.com"
  {
  }

  lemma KnownName()
    ensures ResolveUrl("github") == "https://www.github.com"
  {
    var site := "github";
    NotStartsWith(site, "http://", 0);
    NotStartsWith(site, "https://", 0);
    assert '.' !in site;
    if Contains(site, "youtube") { ContainsNeedsChar(site, "youtube", 0); }
    if Contains(site, "google") { ContainsNeedsChar(site, "google", 1); }
    if Contains(site, "facebook") { ContainsNeedsChar(site, "facebook", 0); }
    if Contains(site, "twitter") { ContainsNeedsChar(site, "twitter", 1); }
    assert OccursAt(site, "github", 0);
    GitHubRule(site);
  }

  lemma RandomTextHasNoKnownName()
    ensures NoKnownName("random text")
  {
    var site := "random text";
    if Contains(site, "youtube") { ContainsNeedsChar(site, "youtube", 0); }
    if Contains(site, "google") { ContainsNeedsChar(site, "google", 0); }
    if Contains(site, "facebook") { ContainsNeedsChar(site, "facebook", 0); }
    if Contains(site, "twitter") { ContainsNeedsChar(site, "twitter", 1); }
    if Contains(site, "github") { ContainsNeedsChar(site, "github", 0); }
  }

  lemma StripSpace() ensures StripWhiteSpace(" ") == [] {
    assert IsWhiteSpace(" "[0]);
    assert " "[1..] == [];
  }

  /** Two words with one space between them run together. */
  lemma StripSpaced(a: string, b: string)
    requires NoWhiteSpace(a) && NoWhiteSpace(b)
    ensures StripWhiteSpace(a + " " + b) == a + b
  {
    StripConcat(a + " ", b);
    StripConcat(a, " ");
    StripSpace();
  }

  lemma RandomTextIsNoAddress(site: string)
    requires site == "random text"
    ensures !IsFullUrl(site) && !IsBareDomain(site)
  {
    assert IsWhiteSpace(site[6]);
    NotStartsWith(site, "http://", 0);
    NotStartsWith(site, "https://", 0);
  }

  lemma StripRandomText(a: string, b: string)
    requires a == "random" && b == "text"
    ensures StripWhiteSpace(a + " " + b) == "randomtext"
  {
    assert forall k :: 0 <= k < |a| ==> !IsWhiteSpace(a[k]);
    assert forall k :: 0 <= k < |b| ==> !IsWhiteSpace(b[k]);
    StripSpaced(a, b);
  }

  lemma FallbackToRandomText(site: string)
    requires !IsFullUrl(site) && !IsBareDomain(site) && NoKnownName(site) && StripWhiteSpace(site) == "randomtext"
    ensures ResolveUrl(site) == "https://randomtext.com"
  {
    FallbackRule(site);
    assert "https://" + "randomtext" + ".com" == "https://randomtext.com";
  }

  /** "random text" has no dot and no known name: its letters become the domain. */
  lemma Fallback()
    ensures ResolveUrl("random text") == "https://randomtext.com"
  {
    RandomTextIsNoAddress("random text");
    StripRandomText("random", "text");
    assert "random" + " " + "text" == "random text";
    RandomTextHasNoKnownName();
    FallbackToRandomText("random text");
  }
}
