/** The script's module-level state and the operations that update it: the
    quote list, the value kept under the "quotes" key of localStorage, and the
    id of the periodic sync timer. */
module StoreState {
  import opened Text
  import opened Quotes

  /** A timer id as setInterval hands it out: a positive integer. */
  type TimerId = n: nat | n > 0 witness 1

  /** How an import ends: no file was chosen, the file was refused (it did
      not parse or did not hold an array), or its records were merged. */
  datatype ImportOutcome = NoFile | Rejected | Imported

  class Store {
    var quotes: seq<Quote>
    /** The decoded value under the "quotes" key of localStorage; None when the
        key is absent or holds the empty string, which `if (stored)` treats
        alike. */
    var stored: Option<Json>
    /** syncIntervalId: the running periodic sync timer, if any. */
    var syncTimer: Option<TimerId>

    /** The state before loading: no quotes, no timer, and whatever the
        browser has persisted. */
    constructor (persisted: Option<Json>)
      ensures quotes == [] && stored == persisted && syncTimer == None
    {
      quotes := [];
      stored := persisted;
      syncTimer := None;
    }

    /** saveQuotes: persists the whole list. */
    method Save()
      modifies this`stored
      ensures stored == Some(Array(quotes))
    {
      stored := Some(Array(quotes));
    }

    /** loadQuotes: a stored array becomes the list; anything else (no key,
        a parse error, a value that is not an array) is replaced by the
        default quotes, which are persisted at once. */
    method Load()
      modifies this`quotes, this`stored
      ensures old(stored).Some? && old(stored).value.Array? ==>
        quotes == old(stored).value.items && stored == old(stored)
      ensures !(old(stored).Some? && old(stored).value.Array?) ==>
        quotes == DefaultQuotes() && stored == Some(Array(DefaultQuotes()))
    {
      if stored.Some? && stored.value.Array? {
        quotes := stored.value.items;
      } else {
        quotes := DefaultQuotes();
        Save();
      }
    }

    /** addQuote: both inputs are trimmed; when either is then empty nothing
        changes, otherwise the quote of the two trimmed inputs is appended and
        the list persisted. */
    method AddQuote(textInput: string, categoryInput: string) returns (added: bool)
      modifies this`quotes, this`stored
      ensures added <==> !AllSpace(textInput) && !AllSpace(categoryInput)
      ensures added ==> quotes == old(quotes) + [Quote(Trim(textInput), Trim(categoryInput))]
      ensures added ==> WellFormed(quotes[|quotes| - 1]) && stored == Some(Array(quotes))
      ensures !added ==> quotes == old(quotes) && stored == old(stored)
    {
      var q := Validate(textInput, categoryInput);
      if q.None? {
        return false;
      }
      quotes := quotes + [q.value];
      Save();
      added := true;
    }

    /** importFromJsonFile: without a file nothing happens; a file that does
        not parse to an array is refused and changes nothing; otherwise the
        records with a new, non-empty text are appended and the list persisted. */
    method Import(file: Option<Json>) returns (outcome: ImportOutcome)
      modifies this`quotes, this`stored
      ensures outcome == (if file.None? then NoFile else if file.value.Array? then Imported else Rejected)
      ensures outcome == Imported ==>
        quotes == ImportMerge(old(quotes), file.value.items) && stored == Some(Array(quotes))
      ensures outcome != Imported ==> quotes == old(quotes) && stored == old(stored)
    {
      if file.None? {
        return NoFile;
      }
      if !file.value.Array? {
        return Rejected;
      }
      quotes := ImportMerge(quotes, file.value.items);
      Save();
      outcome := Imported;
    }

    /** syncQuotes, given the batch the server fetch produced (empty when the
        fetch failed): an empty batch changes nothing; otherwise the merge
        replaces the list, and is persisted, only when it differs from it. */
    method Sync(serverData: seq<Quote>) returns (changed: bool)
      modifies this`quotes, this`stored
      ensures changed <==> serverData != [] && SyncMerge(old(quotes), serverData) != old(quotes)
      ensures changed ==> quotes == SyncMerge(old(quotes), serverData) && stored == Some(Array(quotes))
      ensures !changed ==> quotes == old(quotes) && stored == old(stored)
    {
      if |serverData| == 0 {
        return false;
      }
      var merged := SyncMerge(quotes, serverData);
      changed := merged != quotes;
      if changed {
        quotes := merged;
        Save();
      }
    }

    /** startPeriodicSync: starts the timer `id` unless one is running. */
    method StartPeriodicSync(id: TimerId) returns (started: bool)
      modifies this`syncTimer
      ensures started <==> old(syncTimer).None?
      ensures syncTimer == if started then Some(id) else old(syncTimer)
    {
      if syncTimer.Some? {
        return false;
      }
      syncTimer := Some(id);
      started := true;
    }

    /** stopPeriodicSync: clears the running timer, if there is one. */
    method StopPeriodicSync() returns (stopped: bool)
      modifies this`syncTimer
      ensures stopped <==> old(syncTimer).Some?
      ensures syncTimer == None
    {
      if syncTimer.None? {
        return false;
      }
      syncTimer := None;
      stopped := true;
    }
  }

  /** Loading right after saving gives the list back unchanged. */
  method ReloadAfterSave(store: Store)
    modifies store
    ensures store.quotes == old(store.quotes) && store.stored == Some(Array(store.quotes))
  {
    store.Save();
    store.Load();
  }

  /** A second sync with the same batch reports no change and leaves the
      list as the first one left it. */
  method SyncTwice(store: Store, serverData: seq<Quote>) returns (first: bool, second: bool)
    modifies store
    ensures !second
    ensures store.quotes == if serverData == [] then old(store.quotes) else SyncMerge(old(store.quotes), serverData)
  {
    first := store.Sync(serverData);
    if serverData != [] && !first {
      SyncUnchangedIff(old(store.quotes), serverData);
    }
    SyncIdempotent(old(store.quotes), serverData);
    second := store.Sync(serverData);
  }

  /** Starting twice keeps the first timer and refuses the second start;
      stopping then leaves none. */
  method StartStartStop(store: Store, a: TimerId, b: TimerId) returns (first: bool, second: bool, stopped: bool)
    modifies store
    requires store.syncTimer.None?
    ensures first && !second
    ensures stopped && store.syncTimer.None?
  {
    first := store.StartPeriodicSync(a);
    second := store.StartPeriodicSync(b);
    stopped := store.StopPeriodicSync();
  }
}
