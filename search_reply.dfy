/**
 * The reply built from web-search results in `getLiveSearchResponse`: one
 * numbered line `n. title — snippet` per result, for at most the first three
 * results, each ending in a newline; "No results found." when there are none.
 */
module SearchReply {
  import opened JsText

  datatype SearchItem = SearchItem(title: string, snippet: string)

  /**
   * The separator between title and snippet. The source text holds the UTF-8
   * bytes of an em dash read as Windows-1252: U+00E2 U+20AC U+201D.
   */
  const Separator := " \U{E2}\U{20AC}\U{201D} "

  const NoResults := "No results found."

  /** At most this many results are shown. */
  const MaxShown := 3

  /** The number a string of decimal digits denotes. */
  function DigitsValue(d: string): int
    decreases |d|
  {
    if d == [] then 0 else 10 * DigitsValue(d[..|d| - 1]) + (d[|d| - 1] as int - '0' as int)
  }

  /** Decimal digits of `n`, as template interpolation writes a number: no leading zero. */
  function DecimalText(n: nat): (r: string)
    ensures r != [] && forall k :: 0 <= k < |r| ==> '0' <= r[k] <= '9'
    ensures DigitsValue(r) == n
    ensures n > 0 ==> r[0] != '0'
    ensures n < 10 <==> |r| == 1
  {
    if n < 10 then [('0' as int + n) as char]
    else
      var r := DecimalText(n / 10) + [('0' as int + n % 10) as char];
      assert r[..|r| - 1] == DecimalText(n / 10);
      r
  }

  /** The line for the result at position `n` (counting from 1), without its newline. */
  function Line(n: nat, item: SearchItem): string {
    DecimalText(n) + ". " + item.title + Separator + item.snippet
  }

  /** The numbered, newline-terminated lines of `items`. */
  function Lines(items: seq<SearchItem>): string {
    if items == [] then ""
    else Lines(items[..|items| - 1]) + Line(|items|, items[|items| - 1]) + "\n"
  }

  function SearchReplyText(items: seq<SearchItem>): string {
    if items == [] then NoResults else Lines(items[..Min(MaxShown, |items|)])
  }

  /** The reply, built by appending one line per shown result. */
  method BuildSearchReply(items: seq<SearchItem>) returns (reply: string)
    ensures reply == SearchReplyText(items)
  {
    if |items| == 0 {
      return NoResults;
    }
    var shown := if |items| < MaxShown then |items| else MaxShown;
    reply := "";
    var i := 0;
    while i < shown
      invariant 0 <= i <= shown
      invariant reply == Lines(items[..i])
    {
      assert items[..i + 1][..i] == items[..i];
      reply := reply + Line(i + 1, items[i]) + "\n";
      i := i + 1;
    }
  }

  /** No shown title or snippet holds a newline. */
  predicate SingleLineItems(items: seq<SearchItem>) {
    forall k :: 0 <= k < |items| ==> '\n' !in items[k].title && '\n' !in items[k].snippet
  }

  /** The line texts of `items`, numbered from 1. */
  function LineTexts(items: seq<SearchItem>): (r: seq<string>)
    ensures |r| == |items|
  {
    if items == [] then [] else LineTexts(items[..|items| - 1]) + [Line(|items|, items[|items| - 1])]
  }

  lemma DecimalHasNoNewline(n: nat)
    ensures '\n' !in DecimalText(n)
  {
  }

  lemma LineHasNoNewline(n: nat, item: SearchItem)
    requires '\n' !in item.title && '\n' !in item.snippet
    ensures '\n' !in Line(n, item)
  {
    DecimalHasNoNewline(n);
    var sep := Separator;
    assert forall k :: 0 <= k < |sep| ==> sep[k] != '\n';
    assert '\n' !in ". ";
  }

  lemma SingleLinePrefix(items: seq<SearchItem>, n: nat)
    requires SingleLineItems(items) && n <= |items|
    ensures SingleLineItems(items[..n])
  {
    var init := items[..n];
    forall k | 0 <= k < |init| ensures '\n' !in init[k].title && '\n' !in init[k].snippet {
      assert init[k] == items[k];
    }
  }

  /** Splitting the lines of `items` followed by `rest` on the newline. */
  lemma {:induction false} SplitLines(items: seq<SearchItem>, rest: string)
    requires SingleLineItems(items)
    ensures Split(Lines(items) + rest, '\n') == LineTexts(items) + Split(rest, '\n')
    decreases |items|
  {
    if items == [] {
      assert Lines(items) + rest == rest;
    } else {
      var init, last := items[..|items| - 1], items[|items| - 1];
      SingleLinePrefix(items, |items| - 1);
      LineHasNoNewline(|items|, last);
      var line := Line(|items|, last);
      var tail := line + "\n" + rest;
      assert tail == line + ['\n'] + rest;
      assert Lines(items) + rest == Lines(init) + tail;
      calc {
        Split(Lines(items) + rest, '\n');
        Split(Lines(init) + tail, '\n');
        { SplitLines(init, tail); }
        LineTexts(init) + Split(tail, '\n');
        { SplitCons(line, '\n', rest); }
        LineTexts(init) + ([line] + Split(rest, '\n'));
        (LineTexts(init) + [line]) + Split(rest, '\n');
        LineTexts(items) + Split(rest, '\n');
      }
    }
  }

  /**
   * The reply to a non-empty result list splits into one line per shown
   * result, numbered 1 to at most 3, and an empty remainder after the last
   * newline.
   */
  lemma ReplyLines(items: seq<SearchItem>)
    requires items != [] && SingleLineItems(items)
    ensures Split(SearchReplyText(items), '\n') == LineTexts(items[..Min(MaxShown, |items|)]) + [""]
    ensures |Split(SearchReplyText(items), '\n')| == Min(MaxShown, |items|) + 1 <= MaxShown + 1
  {
    var shown := items[..Min(MaxShown, |items|)];
    SingleLinePrefix(items, |shown|);
    SplitLines(shown, "");
    assert Lines(shown) + "" == Lines(shown);
  }

  /** The k-th line text is the k-th shown result, numbered k + 1. */
  lemma LineTextAt(items: seq<SearchItem>, k: nat)
    requires k < |items|
    ensures LineTexts(items)[k] == Line(k + 1, items[k])
    decreases |items|
  {
    if k < |items| - 1 {
      var init := items[..|items| - 1];
      LineTextAt(init, k);
      assert init[k] == items[k];
    }
  }

  /** An empty result list is answered with "No results found.". */
  lemma NoItemsReply()
    ensures SearchReplyText([]) == NoResults
  {
  }
}
