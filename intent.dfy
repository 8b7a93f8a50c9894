/**
 * The first-match-wins classification of a transcript in `processInput`:
 *   1. "reload" or "refresh" anywhere in the lower-cased transcript;
 *   2. a match of `/play (.+) on youtube/i`;
 *   3. a match of `/open (.+)/i`;
 *   4. "weather", "today" or "news" anywhere in the lower-cased transcript;
 *   5. otherwise a conversational request.
 *
 * Both regular expressions are unanchored searches. The engine tries start
 * positions from the left and reports the first that matches; `(.+)` is
 * greedy, so among the matches at that start it reports the longest capture.
 * `.` matches any character except a line terminator.
 */
module Intent {
  import opened JsText
  import opened UriComponent
  import opened OpenSite

  datatype Action =
    | Reload
    | Play(query: string, url: string)
    | Open(site: string, url: string)
    | LiveSearch
    | Conversational

  /**
   * The lower-case ASCII pattern `p` matches `t` at index `i` under the `/i`
   * flag. Without the `u` flag, case folding never maps a non-ASCII character
   * onto an ASCII one, so for an ASCII pattern this is exactly ASCII folding.
   */
  predicate CiMatchAt(t: string, i: int, p: string) {
    0 <= i && i + |p| <= |t| && Lower(t[i..i + |p|]) == p
  }

  /** Index of the first line terminator at or after `k`, or the end of `t`. */
  function LineEnd(t: string, k: nat): (j: nat)
    requires k <= |t|
    ensures k <= j <= |t|
    ensures j < |t| ==> IsLineTerminator(t[j])
    ensures forall e :: k <= e <= |t| ==> (SingleLine(t[k..e]) <==> e <= j)
    decreases |t| - k
  {
    if k == |t| || IsLineTerminator(t[k]) then
      assert forall e :: k < e <= |t| ==> t[k..e][0] == t[k];
      k
    else
      var j := LineEnd(t, k + 1);
      assert forall e :: k < e <= |t| ==> t[k..e] == [t[k]] + t[k + 1..e];
      j
  }

  /** The largest `e` in `lo..hi` at which `p` matches. */
  function LastMatchIn(t: string, p: string, lo: int, hi: int): (r: Option<int>)
    ensures r.Some? ==> lo <= r.value <= hi && CiMatchAt(t, r.value, p)
    ensures r.Some? ==> forall e :: r.value < e <= hi ==> !CiMatchAt(t, e, p)
    ensures r.None? ==> forall e :: lo <= e <= hi ==> !CiMatchAt(t, e, p)
    decreases hi - lo + 1
  {
    if hi < lo then None
    else if CiMatchAt(t, hi, p) then Some(hi)
    else LastMatchIn(t, p, lo, hi - 1)
  }

  /** The two capturing patterns of the classifier. */
  datatype Pattern = PlayPattern | OpenPattern

  /** The literal text before `(.+)`. */
  function Prefix(p: Pattern): (w: string)
    ensures |w| == 5
  {
    if p.PlayPattern? then "play " else "open "
  }

  /**
   * Pattern `p` matches starting at `s` with capture `t[s + 5..e]`:
   * `/play (.+) on youtube/i` needs " on youtube" right after the capture;
   * `/open (.+)/i` needs nothing after it.
   */
  predicate MatchAt(t: string, p: Pattern, s: int, e: int) {
    CiMatchAt(t, s, Prefix(p)) && s + 5 < e <= |t| && SingleLine(t[s + 5..e])
    && (p.PlayPattern? ==> CiMatchAt(t, e, " on youtube"))
  }

  ghost predicate HasMatch(t: string, p: Pattern) {
    exists s, e :: MatchAt(t, p, s, e)
  }

  /** The match the engine reports: the leftmost start, then the longest capture. */
  ghost predicate IsMatch(t: string, p: Pattern, s: int, e: int) {
    MatchAt(t, p, s, e)
    && (forall s', e' :: 0 <= s' < s ==> !MatchAt(t, p, s', e'))
    && (forall e' :: e < e' ==> !MatchAt(t, p, s, e'))
  }

  /** At most one match is reported. */
  lemma IsMatchUnique(t: string, p: Pattern, s: int, e: int, s2: int, e2: int)
    requires IsMatch(t, p, s, e) && IsMatch(t, p, s2, e2)
    ensures s == s2 && e == e2
  {
  }

  /** The end of the longest capture of a match starting at `s`. */
  function CaptureEnd(t: string, p: Pattern, s: nat): (r: Option<int>)
    ensures r.Some? ==> MatchAt(t, p, s, r.value) && forall e :: r.value < e ==> !MatchAt(t, p, s, e)
    ensures r.None? ==> forall e :: !MatchAt(t, p, s, e)
  {
    if !CiMatchAt(t, s, Prefix(p)) then None
    else
      var j := LineEnd(t, s + 5);
      if p.OpenPattern? then (if s + 5 < j then Some(j) else None)
      else LastMatchIn(t, " on youtube", s + 6, j)
  }

  /** Tries the start positions from `i` on; the first that matches wins. */
  function Search(t: string, p: Pattern, i: nat): (r: Option<(int, int)>)
    ensures r.Some? ==> i <= r.value.0 && MatchAt(t, p, r.value.0, r.value.1)
    ensures r.Some? ==> forall s, e :: i <= s < r.value.0 ==> !MatchAt(t, p, s, e)
    ensures r.Some? ==> forall e :: r.value.1 < e ==> !MatchAt(t, p, r.value.0, e)
    ensures r.None? ==> forall s, e :: i <= s ==> !MatchAt(t, p, s, e)
    decreases |t| - i
  {
    if i > |t| then None
    else match CaptureEnd(t, p, i)
      case Some(e) => Some((i, e))
      case None => Search(t, p, i + 1)
  }

  /** The search from the start finds exactly the reported match. */
  lemma SearchIsMatch(t: string, p: Pattern)
    ensures Search(t, p, 0).Some? <==> HasMatch(t, p)
    ensures Search(t, p, 0).Some? ==> IsMatch(t, p, Search(t, p, 0).value.0, Search(t, p, 0).value.1)
  {
  }

  predicate IsReloadCommand(t: string) {
    Contains(Lower(t), "reload") || Contains(Lower(t), "refresh")
  }

  predicate IsLiveSearchQuery(t: string) {
    Contains(Lower(t), "weather") || Contains(Lower(t), "today") || Contains(Lower(t), "news")
  }

  function YouTubeSearchUrl(query: string): string {
    "https://" + SearchAddress + EncodeURIComponent(query)
  }

  function Classify(t: string): (a: Action)
    ensures a.Reload? <==> IsReloadCommand(t)
    ensures a.Play? <==> !IsReloadCommand(t) && HasMatch(t, PlayPattern)
    ensures a.Open? <==> !IsReloadCommand(t) && !HasMatch(t, PlayPattern) && HasMatch(t, OpenPattern)
    ensures a.LiveSearch? <==>
      !IsReloadCommand(t) && !HasMatch(t, PlayPattern) && !HasMatch(t, OpenPattern) && IsLiveSearchQuery(t)
    ensures a.Conversational? <==>
      !IsReloadCommand(t) && !HasMatch(t, PlayPattern) && !HasMatch(t, OpenPattern) && !IsLiveSearchQuery(t)
  {
    SearchIsMatch(t, PlayPattern);
    SearchIsMatch(t, OpenPattern);
    if IsReloadCommand(t) then Reload
    else match Search(t, PlayPattern, 0)
      case Some((s, e)) =>
        var query := Trim(t[s + 5..e]);
        Play(query, YouTubeSearchUrl(query))
      case None =>
        match Search(t, OpenPattern, 0)
        case Some((s, e)) =>
          var site := Lower(Trim(t[s + 5..e]));
          Open(site, ResolveUrl(site))
        case None =>
          if IsLiveSearchQuery(t) then LiveSearch else Conversational
  }

  /** The play query is the trimmed capture of the reported match, case kept; the URL searches YouTube for it. */
  lemma PlayQuery(t: string, s: int, e: int)
    requires !IsReloadCommand(t) && IsMatch(t, PlayPattern, s, e)
    ensures Classify(t) == Play(Trim(t[s + 5..e]), YouTubeSearchUrl(Trim(t[s + 5..e])))
  {
    SearchIsMatch(t, PlayPattern);
    var r := Search(t, PlayPattern, 0).value;
    IsMatchUnique(t, PlayPattern, s, e, r.0, r.1);
  }

  /** The open target is the trimmed, lower-cased capture, resolved to an address. */
  lemma OpenTarget(t: string, s: int, e: int)
    requires !IsReloadCommand(t) && !HasMatch(t, PlayPattern) && IsMatch(t, OpenPattern, s, e)
    ensures Classify(t) == Open(Lower(Trim(t[s + 5..e])), ResolveUrl(Lower(Trim(t[s + 5..e]))))
  {
    SearchIsMatch(t, PlayPattern);
    SearchIsMatch(t, OpenPattern);
    var r := Search(t, OpenPattern, 0).value;
    IsMatchUnique(t, OpenPattern, s, e, r.0, r.1);
  }

  /** "reload" or "refresh", in any case, anywhere in the transcript wins over everything else. */
  lemma ReloadAnywhere(u: string, w: string, v: string)
    requires Lower(w) == "reload" || Lower(w) == "refresh"
    ensures Classify(u + w + v) == Reload
  {
    LowerConcat(u + w, v);
    LowerConcat(u, w);
    var key := Lower(w);
    assert OccursAt(key, key, 0);
    ContainsInfix(Lower(u), key, Lower(v), key);
  }

  const SearchAddress := "www.youtube.com/results?search_query="

  lemma SearchAddressIsVisible(a: string)
    requires a == SearchAddress
    ensures AllVisible(a)
  {
    assert forall k :: 0 <= k < |a| ==> IsVisibleAscii(a[k]);
  }

  lemma EncodedIsVisible(query: string)
    ensures AllVisible(EncodeURIComponent(query))
  {
  }

  /** The YouTube search address is a full https address ... */
  lemma YouTubeSearchUrlIsFull(query: string)
    ensures IsFullUrl(YouTubeSearchUrl(query))
  {
    var a, b := SearchAddress, EncodeURIComponent(query);
    SearchAddressIsVisible(a);
    EncodedIsVisible(query);
    assert AllVisible(a + b) by {
      forall k | 0 <= k < |a + b| ensures IsVisibleAscii((a + b)[k]) {
        if k < |a| { assert (a + b)[k] == a[k]; } else { assert (a + b)[k] == b[k - |a|]; }
      }
    }
    VisibleIsFull(a + b);
    assert "https://" + (a + b) == YouTubeSearchUrl(query);
  }

  /** ... and determines the query. */
  lemma YouTubeSearchUrlInjective(a: string, b: string)
    requires YouTubeSearchUrl(a) == YouTubeSearchUrl(b)
    ensures a == b
  {
    var n := |"https://" + SearchAddress|;
    assert EncodeURIComponent(a) == YouTubeSearchUrl(a)[n..];
    assert EncodeURIComponent(b) == YouTubeSearchUrl(b)[n..];
    EncodeInjective(a, b);
  }
}
