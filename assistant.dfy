/**
 * What `processInput` and the two request functions record in the chat
 * history. The local actions (reload, play, open) record their reply at once;
 * a live search or a conversational request records the answer, or an error
 * text, when the request completes. The outcome of a request is a parameter.
 */
module Assistant {
  import opened JsText
  import opened Intent
  import opened ChatHistory
  import opened SearchReply

  /** What the search request returned: a list of results, or a failure of any kind. */
  datatype SearchOutcome = Results(items: seq<SearchItem>) | SearchFailed

  /** What the chat request returned: the first choice's message, or a failure of any kind. */
  datatype ChatOutcome = Answer(reply: string) | ChatFailed

  const ReloadReply := "Reloading the page..."
  const SearchError := "Error fetching live search."
  const ChatError := "Error fetching AI response."

  /** The reply a local action records at once; the remote ones record nothing yet. */
  function LocalReply(a: Action): (r: Option<string>)
    ensures r.Some? <==> a.Reload? || a.Play? || a.Open?
  {
    match a
    case Reload => Some(ReloadReply)
    case Play(query, _) => Some("Playing \"" + query + "\" on YouTube...")
    case Open(site, _) => Some("Opening " + site + "...")
    case LiveSearch => None
    case Conversational => None
  }

  function SearchResponse(outcome: SearchOutcome): string {
    match outcome
    case Results(items) => SearchReplyText(items)
    case SearchFailed => SearchError
  }

  function ChatResponse(outcome: ChatOutcome): string {
    match outcome
    case Answer(reply) => reply
    case ChatFailed => ChatError
  }

  /** `processInput`: classifies the transcript and records the reply of a local action. */
  method ProcessInput(h: History, transcript: string) returns (a: Action)
    requires h.Valid()
    modifies h
    ensures a == Classify(transcript)
    ensures LocalReply(a).Some? ==> h.entries == old(h.entries) + [Entry(transcript, LocalReply(a).value)]
    ensures LocalReply(a).None? ==> h.entries == old(h.entries) && h.stored == old(h.stored)
    ensures h.Valid()
  {
    a := Classify(transcript);
    var reply := LocalReply(a);
    if reply.Some? {
      h.Add(transcript, reply.value);
    }
  }

  /** The end of `getLiveSearchResponse`: the reply or the error text is recorded. */
  method CompleteLiveSearch(h: History, query: string, outcome: SearchOutcome)
    requires h.Valid()
    modifies h
    ensures h.entries == old(h.entries) + [Entry(query, SearchResponse(outcome))]
    ensures h.Valid()
  {
    var reply: string;
    match outcome {
      case Results(items) => reply := BuildSearchReply(items);
      case SearchFailed => reply := SearchError;
    }
    h.Add(query, reply);
  }

  /** The end of `getAIResponse`: the answer or the error text is recorded. */
  method CompleteChat(h: History, question: string, outcome: ChatOutcome)
    requires h.Valid()
    modifies h
    ensures h.entries == old(h.entries) + [Entry(question, ChatResponse(outcome))]
    ensures h.Valid()
  {
    h.Add(question, ChatResponse(outcome));
  }

  /** The reply finally recorded for a transcript. */
  function FinalReply(a: Action, search: SearchOutcome, chat: ChatOutcome): string {
    match LocalReply(a)
    case Some(r) => r
    case None => if a.LiveSearch? then SearchResponse(search) else ChatResponse(chat)
  }

  /**
   * One transcript handled to the end, with its request (if any) completing
   * before the next transcript: exactly one entry is recorded, for the
   * transcript, and nothing earlier changes.
   */
  method HandleTranscript(h: History, transcript: string, search: SearchOutcome, chat: ChatOutcome)
    returns (a: Action)
    requires h.Valid()
    modifies h
    ensures a == Classify(transcript)
    ensures h.entries == old(h.entries) + [Entry(transcript, FinalReply(a, search, chat))]
    ensures h.Valid()
  {
    a := ProcessInput(h, transcript);
    if a.LiveSearch? {
      CompleteLiveSearch(h, transcript, search);
    } else if a.Conversational? {
      CompleteChat(h, transcript, chat);
    }
  }

  /** A reload command records exactly the entry (transcript, "Reloading the page..."). */
  lemma ReloadRecordsItsReply(transcript: string, search: SearchOutcome, chat: ChatOutcome)
    requires IsReloadCommand(transcript)
    ensures FinalReply(Classify(transcript), search, chat) == ReloadReply
  {
  }
}
