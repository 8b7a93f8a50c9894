/**
 * Concrete transcripts and what the classifier makes of them. Each example
 * is reduced to a few character-level facts about its transcript, proved on
 * their own, and a general rule that turns such facts into the action.
 */
module IntentExamples {
  import opened JsText
  import opened UriComponent
  import opened OpenSite
  import opened Intent

  /** A pattern occurring verbatim in text without capitals matches there. */
  lemma CiMatchOfOccurrence(t: string, i: int, p: string)
    requires NoCapitals(t) && OccursAt(t, p, i)
    ensures CiMatchAt(t, i, p)
  {
    LowerOfLowercase(t[i..i + |p|]);
  }

  /** In text without capitals a case-insensitive match is a verbatim occurrence. */
  lemma OccurrenceOfCiMatch(t: string, i: int, p: string)
    requires NoCapitals(t) && CiMatchAt(t, i, p)
    ensures OccursAt(t, p, i)
  {
    LowerOfLowercase(t[i..i + |p|]);
  }

  /** A pattern matching case-insensitively in text without capitals uses only characters of the text. */
  lemma CiMatchNeedsChar(t: string, i: int, p: string, k: int)
    requires NoCapitals(t) && CiMatchAt(t, i, p) && 0 <= k < |p|
    ensures p[k] in t
  {
    LowerOfLowercase(t[i..i + |p|]);
    assert t[i..i + |p|][k] == t[i + k];
  }

  lemma SingleLineSlice(t: string, i: int, j: int)
    requires SingleLine(t) && 0 <= i <= j <= |t|
    ensures SingleLine(t[i..j])
  {
    assert forall k :: 0 <= k < j - i ==> t[i..j][k] == t[i + k];
  }

  /** Without an 'r' there is neither "reload" nor "refresh". */
  lemma NoReloadWithoutR(t: string)
    requires NoCapitals(t) && 'r' !in t
    ensures !IsReloadCommand(t)
  {
    LowerOfLowercase(t);
    if Contains(t, "reload") { ContainsNeedsChar(t, "reload", 0); }
    if Contains(t, "refresh") { ContainsNeedsChar(t, "refresh", 0); }
  }

  /** Without an 'l' there is no "reload", and without an 'f' no "refresh". */
  lemma NoReloadWithoutLF(t: string)
    requires NoCapitals(t) && 'l' !in t && 'f' !in t
    ensures !IsReloadCommand(t)
  {
    LowerOfLowercase(t);
    if Contains(t, "reload") { ContainsNeedsChar(t, "reload", 2); }
    if Contains(t, "refresh") { ContainsNeedsChar(t, "refresh", 2); }
  }

  /** Without an 'l' there is no "play ". */
  lemma NoPlayWithoutL(t: string)
    requires NoCapitals(t) && 'l' !in t
    ensures !HasMatch(t, PlayPattern)
  {
    if HasMatch(t, PlayPattern) {
      var s, e :| MatchAt(t, PlayPattern, s, e);
      CiMatchNeedsChar(t, s, "play ", 1);
    }
  }

  /** Text with no whitespace at either end is its own trim. */
  predicate Trimmed(q: string) {
    q != [] && !IsWhiteSpace(q[0]) && !IsWhiteSpace(q[|q| - 1])
  }

  /** `PlayQuery` with the trimmed query named. */
  lemma PlayQueryIs(t: string, s: int, e: int, q: string)
    requires !IsReloadCommand(t) && IsMatch(t, PlayPattern, s, e) && Trim(t[s + 5..e]) == q
    ensures Classify(t) == Play(q, YouTubeSearchUrl(q))
  {
    PlayQuery(t, s, e);
  }

  /** No capture from the start can end after the last place " on youtube" fits. */
  lemma PlayLongest(t: string, e: int)
    requires e + 11 == |t|
    ensures forall e' :: e < e' ==> !MatchAt(t, PlayPattern, 0, e')
  {
  }

  /** A match from the very start whose " on youtube" ends the transcript is the reported one. */
  lemma PlayWholeMatch(t: string, e: int)
    requires NoCapitals(t) && SingleLine(t)
    requires OccursAt(t, "play ", 0) && OccursAt(t, " on youtube", e) && e + 11 == |t| && 5 < e
    ensures IsMatch(t, PlayPattern, 0, e)
  {
    CiMatchOfOccurrence(t, 0, "play ");
    CiMatchOfOccurrence(t, e, " on youtube");
    SingleLineSlice(t, 5, e);
    assert MatchAt(t, PlayPattern, 0, e);
    PlayLongest(t, e);
  }

  /** Where the parts of "play " + q + " on youtube" sit. */
  lemma PlayShape(t: string, q: string)
    requires t == "play " + q + " on youtube"
    ensures |t| == 5 + |q| + 11 && t[5..5 + |q|] == q
    ensures OccursAt(t, "play ", 0) && OccursAt(t, " on youtube", 5 + |q|)
  {
    var e := 5 + |q|;
    assert t[..5] == "play " && t[5..e] == q && t[e..] == " on youtube";
    assert t[0..5] == t[..5] && t[e..e + 11] == t[e..];
  }

  /** What the classifier needs to know about a whole play command. */
  lemma PlayCommandFacts(t: string, q: string)
    requires NoCapitals(t) && SingleLine(t) && !IsReloadCommand(t)
    requires t == "play " + q + " on youtube" && Trimmed(q)
    ensures !IsReloadCommand(t) && IsMatch(t, PlayPattern, 0, 5 + |q|) && Trim(t[0 + 5..5 + |q|]) == q
  {
    PlayShape(t, q);
    PlayWholeMatch(t, 5 + |q|);
    assert Trim(q) == q;
  }

  /** A transcript that is a whole play command searches for its trimmed query. */
  lemma PlayCommand(t: string, q: string)
    requires NoCapitals(t) && SingleLine(t) && !IsReloadCommand(t)
    requires t == "play " + q + " on youtube" && Trimmed(q)
    ensures Classify(t) == Play(q, YouTubeSearchUrl(q))
  {
    PlayCommandFacts(t, q);
    PlayQueryIs(t, 0, 5 + |q|, q);
  }

  /** Without 'l' and 'f', lower-case text is neither a reload command nor a play command. */
  lemma NeitherReloadNorPlay(t: string)
    requires NoCapitals(t) && 'l' !in t && 'f' !in t
    ensures !IsReloadCommand(t) && !HasMatch(t, PlayPattern)
  {
    NoReloadWithoutLF(t);
    NoPlayWithoutL(t);
  }

  /**
   * An open command in lower-case, single-line text that is neither a reload
   * nor a play command, whose "open " occurs first at `s`: the capture runs
   * to the end.
   */
  lemma OpenToEnd(t: string, s: int, site: string, url: string)
    requires NoCapitals(t) && SingleLine(t) && !IsReloadCommand(t) && !HasMatch(t, PlayPattern)
    requires OccursAt(t, "open ", s) && s + 5 < |t|
    requires forall i :: 0 <= i < s ==> !OccursAt(t, "open ", i)
    requires t[s + 5..] == site && Trimmed(site) && NoCapitals(site) && ResolveUrl(site) == url
    ensures Classify(t) == Open(site, url)
  {
    CiMatchOfOccurrence(t, s, "open ");
    SingleLineSlice(t, s + 5, |t|);
    assert MatchAt(t, OpenPattern, s, |t|);
    forall i, e | 0 <= i < s ensures !MatchAt(t, OpenPattern, i, e) {
      if CiMatchAt(t, i, "open ") {
        OccurrenceOfCiMatch(t, i, "open ");
      }
    }
    assert t[s + 5..|t|] == t[s + 5..];
    OpenTarget(t, s, |t|);
    LowerOfLowercase(site);
  }

  // "play daft punk on youtube"

  lemma DaftPunkFacts(t: string)
    requires t == "play daft punk on youtube"
    ensures NoCapitals(t) && SingleLine(t) && 'r' !in t && !IsReloadCommand(t)
  {
    assert forall k :: 0 <= k < |t| ==> !('A' <= t[k] <= 'Z');
    assert forall k :: 0 <= k < |t| ==> !IsLineTerminator(t[k]);
    assert forall k :: 0 <= k < |t| ==> t[k] != 'r';
    NoReloadWithoutR(t);
  }

  lemma DaftPunkShape(t: string)
    requires t == "play daft punk on youtube"
    ensures t == "play " + "daft punk" + " on youtube" && Trimmed("daft punk")
  {
  }

  lemma EncodeDaftPunk(a: string, b: string)
    requires a == "daft" && b == "punk"
    ensures EncodeURIComponent(a + " " + b) == a + "%20" + b
  {
    EncodeConcat(a + " ", b);
    EncodeConcat(a, " ");
    EncodeSpace();
    EncodeUnreserved(a);
    EncodeUnreserved(b);
  }

  /** "play daft punk on youtube" searches YouTube for "daft punk" ... */
  lemma PlayDaftPunk()
    ensures Classify("play daft punk on youtube") == Play("daft punk", YouTubeSearchUrl("daft punk"))
  {
    DaftPunkFacts("play daft punk on youtube");
    DaftPunkShape("play daft punk on youtube");
    PlayCommand("play daft punk on youtube", "daft punk");
  }

  /** ... which is encoded as "daft%20punk". */
  lemma DaftPunkEncoded()
    ensures EncodeURIComponent("daft" + " " + "punk") == "daft" + "%20" + "punk"
  {
    EncodeDaftPunk("daft", "punk");
  }

  // "play a on youtube on youtube"

  lemma TwiceFacts(t: string)
    requires t == "play a on youtube on youtube"
    ensures NoCapitals(t) && SingleLine(t) && 'r' !in t && !IsReloadCommand(t)
  {
    assert forall k :: 0 <= k < |t| ==> !('A' <= t[k] <= 'Z');
    assert forall k :: 0 <= k < |t| ==> !IsLineTerminator(t[k]);
    assert forall k :: 0 <= k < |t| ==> t[k] != 'r';
    NoReloadWithoutR(t);
  }

  lemma TwiceShape(t: string)
    requires t == "play a on youtube on youtube"
    ensures t == "play " + "a on youtube" + " on youtube" && Trimmed("a on youtube")
  {
  }

  /** The capture is greedy: it runs to the last " on youtube". */
  lemma PlayGreedy()
    ensures Classify("play a on youtube on youtube") == Play("a on youtube", YouTubeSearchUrl("a on youtube"))
  {
    TwiceFacts("play a on youtube on youtube");
    TwiceShape("play a on youtube on youtube");
    PlayCommand("play a on youtube on youtube", "a on youtube");
  }

  // "reopen the door"

  lemma DoorFacts(t: string)
    requires t == "reopen the door"
    ensures NoCapitals(t) && SingleLine(t) && 'l' !in t && 'f' !in t
    ensures !IsReloadCommand(t) && !HasMatch(t, PlayPattern)
  {
    assert forall k :: 0 <= k < |t| ==> !('A' <= t[k] <= 'Z');
    assert forall k :: 0 <= k < |t| ==> !IsLineTerminator(t[k]);
    assert forall k :: 0 <= k < |t| ==> t[k] != 'l' && t[k] != 'f';
    NeitherReloadNorPlay(t);
  }

  lemma DoorParts(t: string)
    requires t == "reopen the door"
    ensures OccursAt(t, "open ", 2) && |t| == 15
    ensures forall i :: 0 <= i < 2 ==> !OccursAt(t, "open ", i)
    ensures t[7..] == "the door"
  {
    assert !OccursAt(t, "open ", 0) by { assert t[0..5][0] == 'r'; }
    assert !OccursAt(t, "open ", 1) by { assert t[1..6][0] == 'e'; }
  }

  lemma DoorIsPlain(site: string)
    requires site == "the door"
    ensures Trimmed(site) && NoCapitals(site) && !IsFullUrl(site) && !IsBareDomain(site)
  {
    assert forall k :: 0 <= k < |site| ==> !('A' <= site[k] <= 'Z');
    assert IsWhiteSpace(site[3]);
    NotStartsWith(site, "http://", 0);
    NotStartsWith(site, "https://", 0);
  }

  lemma DoorHasNoKnownName(site: string)
    requires site == "the door"
    ensures NoKnownName(site)
  {
    if Contains(site, "youtube") { ContainsNeedsChar(site, "youtube", 0); }
    if Contains(site, "google") { ContainsNeedsChar(site, "google", 0); }
    if Contains(site, "facebook") { ContainsNeedsChar(site, "facebook", 0); }
    if Contains(site, "twitter") { ContainsNeedsChar(site, "twitter", 1); }
    if Contains(site, "github") { ContainsNeedsChar(site, "github", 0); }
  }

  lemma StripDoor(site: string)
    requires site == "the door"
    ensures StripWhiteSpace(site) == "thedoor"
  {
    var a, b := "the", "door";
    assert forall k :: 0 <= k < |a| ==> !IsWhiteSpace(a[k]);
    assert forall k :: 0 <= k < |b| ==> !IsWhiteSpace(b[k]);
    StripSpaced(a, b);
    assert site == a + " " + b;
  }

  lemma DoorResolves()
    ensures ResolveUrl("the door") == "https://" + "thedoor" + ".com"
  {
    DoorIsPlain("the door");
    DoorHasNoKnownName("the door");
    StripDoor("the door");
    FallbackRule("the door");
  }

  /** `/open (.+)/i` is unanchored: "reopen the door" opens "the door", which becomes thedoor.com. */
  lemma ReopenTheDoor()
    ensures Classify("reopen the door") == Open("the door", "https://" + "thedoor" + ".com")
  {
    DoorFacts("reopen the door");
    DoorParts("reopen the door");
    DoorIsPlain("the door");
    DoorResolves();
    OpenToEnd("reopen the door", 2, "the door", "https://" + "thedoor" + ".com");
  }

  // "open youtube.com" and "open github"

  lemma OpenYouTubeComFacts(t: string)
    requires t == "open youtube.com"
    ensures NoCapitals(t) && SingleLine(t) && 'l' !in t && 'f' !in t
    ensures !IsReloadCommand(t) && !HasMatch(t, PlayPattern)
    ensures OccursAt(t, "open ", 0) && t[5..] == "youtube.com"
  {
    assert forall k :: 0 <= k < |t| ==> !('A' <= t[k] <= 'Z');
    assert forall k :: 0 <= k < |t| ==> !IsLineTerminator(t[k]);
    assert forall k :: 0 <= k < |t| ==> t[k] != 'l' && t[k] != 'f';
    NeitherReloadNorPlay(t);
  }

  lemma YouTubeComIsPlain(site: string)
    requires site == "youtube.com"
    ensures Trimmed(site) && NoCapitals(site)
  {
    assert forall k :: 0 <= k < |site| ==> !('A' <= site[k] <= 'Z');
  }

  /** A bare domain is opened as it is, before the known-name rule. */
  lemma OpenYouTubeCom(t: string)
    requires t == "open youtube.com"
    ensures Classify(t) == Open("youtube.com", "https://" + "youtube.com")
  {
    OpenYouTubeComFacts(t);
    YouTubeComIsPlain("youtube.com");
    BareDomainBeforeKnownName();
    OpenToEnd(t, 0, "youtube.com", "https://" + "youtube.com");
  }

  lemma OpenGitHubFacts(t: string)
    requires t == "open github"
    ensures NoCapitals(t) && SingleLine(t) && 'l' !in t && 'f' !in t
    ensures !IsReloadCommand(t) && !HasMatch(t, PlayPattern)
    ensures OccursAt(t, "open ", 0) && t[5..] == "github"
  {
    assert forall k :: 0 <= k < |t| ==> !('A' <= t[k] <= 'Z');
    assert forall k :: 0 <= k < |t| ==> !IsLineTerminator(t[k]);
    assert forall k :: 0 <= k < |t| ==> t[k] != 'l' && t[k] != 'f';
    NeitherReloadNorPlay(t);
  }

  lemma GitHubIsPlain(site: string)
    requires site == "github"
    ensures Trimmed(site) && NoCapitals(site)
  {
    assert forall k :: 0 <= k < |site| ==> !('A' <= site[k] <= 'Z');
  }

  /** A known name is sent to its site. */
  lemma OpenGitHub(t: string)
    requires t == "open github"
    ensures Classify(t) == Open("github", "https://www.github.com")
  {
    OpenGitHubFacts(t);
    GitHubIsPlain("github");
    KnownName();
    OpenToEnd(t, 0, "github", "https://www.github.com");
  }
}
