/**
 * The chat history: an ordered list of (user, assistant) exchanges, changed
 * in place by appending, deleting one entry and clearing. After every change
 * the whole list is written to browser storage under "chatHistory", or the
 * key is removed on clearing; on page load a saved list replaces the empty one.
 *
 * The storage key is the ghost field `stored`: `Some(list)` for the
 * serialised list (serialisation and parsing are a faithful round trip on
 * lists of string pairs), `None` for an absent key.
 */
module ChatHistory {
  import opened JsText

  datatype Entry = Entry(user: string, assistant: string)

  /** `list.splice(i, 1)` for an index inside the list. */
  function Without<T>(s: seq<T>, i: nat): (r: seq<T>)
    requires i < |s|
    ensures |r| == |s| - 1
    ensures forall k :: 0 <= k < i ==> r[k] == s[k]
    ensures forall k :: i <= k < |r| ==> r[k] == s[k + 1]
  {
    s[..i] + s[i + 1..]
  }

  /** Removing entry `i` and putting it back gives the list again. */
  lemma WithoutInsert<T>(s: seq<T>, i: nat)
    requires i < |s|
    ensures Without(s, i)[..i] + [s[i]] + Without(s, i)[i..] == s
  {
    var r := Without(s, i);
    var t := r[..i] + [s[i]] + r[i..];
    assert |t| == |s|;
    forall k | 0 <= k < |s| ensures t[k] == s[k] {
      if k < i { assert t[k] == r[k]; }
      else if k > i { assert t[k] == r[k - 1]; }
    }
  }

  /** What page load makes of the saved value: the saved list, or no entries when the key is absent. */
  function Restore(saved: Option<seq<Entry>>): (entries: seq<Entry>)
    ensures saved.Some? ==> entries == saved.value
    ensures saved.None? ==> entries == []
  {
    if saved.Some? then saved.value else []
  }

  class History {
    var entries: seq<Entry>
    ghost var stored: Option<seq<Entry>>

    /** The stored copy equals the list, or the key is absent and the list is empty. */
    ghost predicate Valid()
      reads this
    {
      stored == Some(entries) || (stored.None? && entries == [])
    }

    /** Page load with the value found in storage. */
    constructor Load(saved: Option<seq<Entry>>)
      ensures entries == Restore(saved) && stored == saved
      ensures Valid()
    {
      entries := Restore(saved);
      stored := saved;
    }

    /** `addToChatHistory`: one exchange appended, then the list stored. */
    method Add(user: string, assistant: string)
      modifies this
      ensures entries == old(entries) + [Entry(user, assistant)]
      ensures stored == Some(entries)
      ensures Valid()
    {
      entries := entries + [Entry(user, assistant)];
      stored := Some(entries);
    }

    /** `deleteHistoryEntry`: entry `i` removed, then the list stored. */
    method Delete(i: nat)
      requires i < |entries|
      modifies this
      ensures entries == Without(old(entries), i)
      ensures stored == Some(entries)
      ensures Valid()
    {
      entries := entries[..i] + entries[i + 1..];
      stored := Some(entries);
    }

    /** `clearAllHistory`: the list emptied and the key removed. */
    method Clear()
      modifies this
      ensures entries == [] && stored == None
      ensures Valid()
    {
      entries := [];
      stored := None;
    }
  }

  /** Whatever the history went through, a page load finds the same entries. */
  lemma ReloadRestores(h: History)
    requires h.Valid()
    ensures Restore(h.stored) == h.entries
  {
  }
}
