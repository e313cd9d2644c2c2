/** The list logic of the quote generator, as values: the quote record, the
    default quotes, add validation, the server-wins sync merge, the import
    merge, the category index with selection restore, category filtering and
    the random pick. The Store class in store.dfy applies these to its state. */
module Quotes {
  import opened Text
  import opened Seqs
  import opened Order

  datatype Quote = Quote(text: string, category: string)

  datatype Option<T> = None | Some(value: T)

  /** What JSON.parse makes of a stored or imported text, as far as the
      script distinguishes it: a parse error, a value that is not an array,
      or an array of quote records. */
  datatype Json = Malformed | NonArray | Array(items: seq<Quote>)

  /** The value of the synthetic "All Categories" option: no filter. */
  const All: string := "all"

  /** Non-empty and free of surrounding whitespace, so its own trim (Text.TrimFixed). */
  predicate Trimmed(s: string) {
    s != [] && !IsSpace(s[0]) && !IsSpace(s[|s| - 1])
  }

  /** Both fields non-empty and free of surrounding whitespace. */
  predicate WellFormed(q: Quote) {
    Trimmed(q.text) && Trimmed(q.category)
  }

  function Texts(qs: seq<Quote>): set<string> {
    set q | q in qs :: q.text
  }

  function CategorySet(qs: seq<Quote>): set<string> {
    set q | q in qs :: q.category
  }

  predicate UniqueTexts(qs: seq<Quote>) {
    forall i, j :: 0 <= i < j < |qs| ==> qs[i].text != qs[j].text
  }

  /** The filter of syncQuotes: keep a local quote whose text the server batch lacks. */
  function NotOnServer(server: seq<Quote>): Quote -> bool {
    (q: Quote) => q.text !in Texts(server)
  }

  /** The filter of importFromJsonFile: keep an imported record with a
      non-empty text that no existing quote carries. */
  function NewForImport(existing: seq<Quote>): Quote -> bool {
    (q: Quote) => q.text != [] && q.text !in Texts(existing)
  }

  /** The filter of getFilteredQuotes. */
  function InCategory(category: string): Quote -> bool {
    (q: Quote) => q.category == category
  }

  // ---------------------------------------------------------------------
  // Default quotes

  // The default texts, each without its first letter and its final full stop.
  // Writing the two ends apart keeps the verifier from unfolding each long
  // literal character by character to see that the text is trimmed.
  const MotivationMiddle: string := "he best way to get started is to quit talking and begin doing"
  const InspirationMiddle: string := "n the middle of every difficulty lies opportunity"
  const LifeMiddle: string := "ife is what happens when you\U{2019}re busy making other plans"

  /** A default quote: its text is `first`, `middle` and a final full stop. */
  function DefaultQuote(first: char, middle: string, category: string): (q: Quote)
    requires !IsSpace(first) && Trimmed(category)
    ensures WellFormed(q) && q.text[0] == first && q.category == category
  {
    var text := [first] + middle + ".";
    assert text[0] == first && text[|text| - 1] == '.';
    Quote(text, category)
  }

  /** getDefaultQuotes: the three quotes a fresh or unreadable store starts with. */
  function DefaultQuotes(): (r: seq<Quote>)
    ensures |r| == 3
    ensures forall i :: 0 <= i < |r| ==> WellFormed(r[i])
    ensures UniqueTexts(r)
  {
    var a := DefaultQuote('T', MotivationMiddle, "Motivation");
    var b := DefaultQuote('I', InspirationMiddle, "Inspiration");
    var c := DefaultQuote('L', LifeMiddle, "Life");
    [a, b, c]
  }

  /** The default quotes offer the categories Inspiration, Life and
      Motivation, in that order. */
  lemma {:induction false} DefaultCategories()
    ensures Categories(DefaultQuotes()) == ["Inspiration", "Life", "Motivation"]
  {
    var qs := DefaultQuotes();
    var cats := ["Inspiration", "Life", "Motivation"];
    assert Le(cats[0], cats[1]) && Le(cats[1], cats[2]);
    LeTransitive(cats[0], cats[1], cats[2]);
    assert StrictlySorted(cats);
    assert qs[0] in qs && qs[1] in qs && qs[2] in qs;
    assert CategorySet(qs) == {"Motivation", "Inspiration", "Life"};
    CategoriesDetermined(qs, cats);
  }

  // ---------------------------------------------------------------------
  // Adding a quote

  /** The validation step of addQuote: both inputs are trimmed, and the quote
      is made only when neither trimmed input is empty. */
  function Validate(text: string, category: string): (r: Option<Quote>)
    ensures r.Some? <==> !AllSpace(text) && !AllSpace(category)
    ensures r.Some? ==> WellFormed(r.value)
    ensures r.Some? ==> r.value.text == Trim(text) && r.value.category == Trim(category)
  {
    var t, c := Trim(text), Trim(category);
    if t == [] || c == [] then None else Some(Quote(t, c))
  }

  // ---------------------------------------------------------------------
  // Sync with the server: the server wins on equal text

  /** The merge of syncQuotes: the server batch, then the local quotes whose
      text no server quote carries, each part in its own order. */
  function SyncMerge(local: seq<Quote>, server: seq<Quote>): (merged: seq<Quote>)
    ensures |server| <= |merged| && merged[..|server|] == server
    ensures forall i :: |server| <= i < |merged| ==> merged[i].text !in Texts(server)
    ensures forall q :: q in merged[|server|..] <==> q in local && q.text !in Texts(server)
  {
    var tail := Filter(local, NotOnServer(server));
    var merged := server + tail;
    assert merged[|server|..] == tail;
    assert forall i :: |server| <= i < |merged| ==> merged[i] == tail[i - |server|] && tail[i - |server|] in tail;
    merged
  }

  /** The kept local quotes keep their multiplicity: each local quote whose
      text the batch lacks follows the batch as often as it occurs locally,
      and no other quote follows it. */
  lemma {:induction false} SyncMergeCount(local: seq<Quote>, server: seq<Quote>)
    ensures forall q ::
      multiset(SyncMerge(local, server)[|server|..])[q] == if q.text !in Texts(server) then multiset(local)[q] else 0
  {
    var p := NotOnServer(server);
    FilterCount(local, p);
    DropAppend(server, Filter(local, p));
  }

  /** Server precedence: when a local and a server quote share a text, the
      server quote is in the result and every quote there with that text
      comes from the server batch. */
  lemma {:induction false} SyncServerWins(local: seq<Quote>, server: seq<Quote>, l: Quote, s: Quote)
    requires l in local && s in server && l.text == s.text
    ensures s in SyncMerge(local, server)
    ensures forall q :: q in SyncMerge(local, server) && q.text == s.text ==> q in server
  {
    var merged := SyncMerge(local, server);
    var i :| 0 <= i < |server| && server[i] == s;
    assert merged[i] == s;
    forall q | q in merged && q.text == s.text ensures q in server {
      var k :| 0 <= k < |merged| && merged[k] == q;
      assert s.text in Texts(server);
      if k < |server| { assert merged[..|server|][k] == q; }
    }
  }

  /** The sync filter drops every quote of the batch itself. */
  lemma {:induction false} SyncDropsBatch(server: seq<Quote>)
    ensures Filter(server, NotOnServer(server)) == []
  {
    var p := NotOnServer(server);
    forall i | 0 <= i < |server| ensures !p(server[i]) {
      assert server[i] in server;
    }
    FilterDropsAll(server, p);
  }

  /** A list already in merged form (the batch first, then only quotes with
      other texts) is left as it is. */
  lemma {:induction false} SyncKeepsMergedList(local: seq<Quote>, server: seq<Quote>)
    requires |server| <= |local| && local[..|server|] == server
    requires forall i :: |server| <= i < |local| ==> local[i].text !in Texts(server)
    ensures SyncMerge(local, server) == local
  {
    var p := NotOnServer(server);
    var rest := local[|server|..];
    assert local == server + rest;
    FilterConcat(server, rest, p);
    SyncDropsBatch(server);
    forall i | 0 <= i < |rest| ensures p(rest[i]) {
      assert rest[i] == local[|server| + i];
    }
    FilterKeepsAll(rest, p);
    assert Filter(local, p) == rest;
  }

  /** Syncing the merged list again with the same batch changes nothing. */
  lemma {:induction false} SyncIdempotent(local: seq<Quote>, server: seq<Quote>)
    ensures SyncMerge(SyncMerge(local, server), server) == SyncMerge(local, server)
  {
    SyncKeepsMergedList(SyncMerge(local, server), server);
  }

  /** The merge returns the local list unchanged exactly when that list
      already starts with the server batch and no later local quote shares a
      text with the batch. */
  lemma {:induction false} SyncUnchangedIff(local: seq<Quote>, server: seq<Quote>)
    ensures SyncMerge(local, server) == local <==>
      && |server| <= |local| && local[..|server|] == server
      && forall i :: |server| <= i < |local| ==> local[i].text !in Texts(server)
  {
    if && |server| <= |local| && local[..|server|] == server
       && forall i :: |server| <= i < |local| ==> local[i].text !in Texts(server)
    {
      SyncKeepsMergedList(local, server);
    }
  }

  /** The kept local quotes stay in their order: merging a local list made
      of two parts keeps, from each part, what merging that part keeps. */
  lemma {:induction false} SyncKeepsLocalOrder(l1: seq<Quote>, l2: seq<Quote>, server: seq<Quote>)
    ensures SyncMerge(l1 + l2, server) == SyncMerge(l1, server) + SyncMerge(l2, server)[|server|..]
  {
    var p := NotOnServer(server);
    FilterConcat(l1, l2, p);
    DropAppend(server, Filter(l2, p));
  }

  /** An empty batch merges to the local list itself. */
  lemma {:induction false} SyncEmptyBatch(local: seq<Quote>)
    ensures SyncMerge(local, []) == local
  {
    FilterKeepsAll(local, NotOnServer([]));
  }

  /** Distinct texts stay distinct when the batch itself has distinct texts. */
  lemma {:induction false} SyncKeepsTextsUnique(local: seq<Quote>, server: seq<Quote>)
    requires UniqueTexts(local) && UniqueTexts(server)
    ensures UniqueTexts(SyncMerge(local, server))
  {
    var p := NotOnServer(server);
    var tail := Filter(local, p);
    FilterKeepsTextsUnique(local, p);
    var merged := SyncMerge(local, server);
    assert merged == server + tail;
    forall i, j | 0 <= i < j < |merged| ensures merged[i].text != merged[j].text {
      if j < |server| {
        assert merged[i] == server[i] && merged[j] == server[j];
      } else if i < |server| {
        assert merged[i] == server[i] && server[i] in server;
      } else {
        assert merged[i] == tail[i - |server|] && merged[j] == tail[j - |server|];
      }
    }
  }

  lemma {:induction false} FilterKeepsTextsUnique(s: seq<Quote>, p: Quote -> bool)
    requires UniqueTexts(s)
    ensures UniqueTexts(Filter(s, p))
  {
    if s != [] {
      FilterKeepsTextsUnique(s[1..], p);
      var rest := Filter(s[1..], p);
      var r := Filter(s, p);
      if p(s[0]) {
        assert r == [s[0]] + rest;
        forall j | 0 <= j < |rest| ensures rest[j].text != s[0].text {
          assert rest[j] in s[1..];
          var k :| 0 <= k < |s[1..]| && s[1..][k] == rest[j];
          assert s[k + 1] == rest[j];
        }
      } else {
        assert r == rest;
      }
    }
  }

  /** A worked case: with local quotes A/X and B/Y and the batch [B/Z], the
      server's B/Z comes first, A/X follows, and the list has changed. */
  lemma {:induction false} SyncExample()
    ensures SyncMerge([Quote("A", "X"), Quote("B", "Y")], [Quote("B", "Z")])
         == [Quote("B", "Z"), Quote("A", "X")]
  {
    var server := [Quote("B", "Z")];
    assert Texts(server) == {"B"} by {
      assert server[0] in server;
    }
    assert Filter([Quote("B", "Y")], NotOnServer(server)) == [];
  }

  /** A batch whose only quote is already stored unchanged still changes the
      list when that quote is not first: the merge moves it to the front. */
  lemma {:induction false} SyncReordersKnownQuote()
    ensures SyncMerge([Quote("A", "X"), Quote("B", "Y")], [Quote("B", "Y")])
         != [Quote("A", "X"), Quote("B", "Y")]
  {
    var merged := SyncMerge([Quote("A", "X"), Quote("B", "Y")], [Quote("B", "Y")]);
    assert merged[0] == Quote("B", "Y");
  }

  // ---------------------------------------------------------------------
  // Import from a JSON file: the local list wins on equal text

  /** The merge of importFromJsonFile: the existing quotes, then the imported
      records with a non-empty text that no existing quote carries, in import
      order. Duplicates inside the batch are not removed. */
  function ImportMerge(existing: seq<Quote>, imported: seq<Quote>): (merged: seq<Quote>)
    ensures |existing| <= |merged| && merged[..|existing|] == existing
    ensures forall i :: |existing| <= i < |merged| ==>
      merged[i].text != [] && merged[i].text !in Texts(existing)
    ensures forall q :: q in merged[|existing|..] <==>
      q in imported && q.text != [] && q.text !in Texts(existing)
  {
    var tail := Filter(imported, NewForImport(existing));
    var merged := existing + tail;
    assert merged[|existing|..] == tail;
    assert forall i :: |existing| <= i < |merged| ==> merged[i] == tail[i - |existing|] && tail[i - |existing|] in tail;
    merged
  }

  /** The appended records keep their multiplicity: each new record follows
      the existing quotes as often as the batch holds it, and no other record
      follows them. */
  lemma {:induction false} ImportMergeCount(existing: seq<Quote>, imported: seq<Quote>)
    ensures forall q ::
      multiset(ImportMerge(existing, imported)[|existing|..])[q] ==
        if q.text != [] && q.text !in Texts(existing) then multiset(imported)[q] else 0
  {
    var p := NewForImport(existing);
    FilterCount(imported, p);
    DropAppend(existing, Filter(imported, p));
  }

  /** Importing the same file twice adds nothing the second time. */
  lemma {:induction false} ImportIdempotent(existing: seq<Quote>, imported: seq<Quote>)
    ensures ImportMerge(ImportMerge(existing, imported), imported) == ImportMerge(existing, imported)
  {
    var merged := ImportMerge(existing, imported);
    var p := NewForImport(merged);
    forall i | 0 <= i < |imported| ensures !p(imported[i]) {
      var q := imported[i];
      if q.text != [] && q.text !in Texts(existing) {
        assert q in merged[|existing|..];
        var k :| 0 <= k < |merged[|existing|..]| && merged[|existing|..][k] == q;
        assert merged[|existing| + k] == q;
        assert q in merged;
      } else if q.text != [] {
        var e :| e in existing && e.text == q.text;
        var k :| 0 <= k < |existing| && existing[k] == e;
        assert merged[k] == e;
        assert e in merged;
      }
    }
    FilterDropsAll(imported, p);
  }

  /** Imported records are appended in import order: importing a batch made
      of two parts appends, from each part, what importing that part appends. */
  lemma {:induction false} ImportKeepsBatchOrder(existing: seq<Quote>, a: seq<Quote>, b: seq<Quote>)
    ensures ImportMerge(existing, a + b) == ImportMerge(existing, a) + ImportMerge(existing, b)[|existing|..]
  {
    var p := NewForImport(existing);
    FilterConcat(a, b, p);
    assert ImportMerge(existing, a + b) == existing + (Filter(a, p) + Filter(b, p));
    assert ImportMerge(existing, b)[|existing|..] == Filter(b, p) by {
      DropAppend(existing, Filter(b, p));
    }
  }

  /** Deduplication is against the list before the import only: a batch
      holding a new quote twice adds it twice. */
  lemma {:induction false} ImportKeepsBatchDuplicates(existing: seq<Quote>, q: Quote)
    requires q.text != [] && q.text !in Texts(existing)
    ensures ImportMerge(existing, [q, q]) == existing + [q, q]
  {
    var batch := [q, q];
    var p := NewForImport(existing);
    assert p(batch[0]) && p(batch[1]);
    FilterKeepsAll(batch, p);
  }

  // ---------------------------------------------------------------------
  // Category index and selection restore

  /** The categories offered by the filter, without the synthetic "all":
      `Array.from(new Set(quotes.map(q => q.category))).sort()`. */
  function Categories(qs: seq<Quote>): (r: seq<string>)
    ensures StrictlySorted(r)
    ensures forall c :: c in r <==> c in CategorySet(qs)
  {
    var cats := seq(|qs|, i requires 0 <= i < |qs| => qs[i].category);
    assert forall c :: c in cats <==> c in CategorySet(qs) by {
      forall c ensures c in cats <==> c in CategorySet(qs) {
        if c in CategorySet(qs) {
          var q :| q in qs && q.category == c;
          var k :| 0 <= k < |qs| && qs[k] == q;
          assert cats[k] == c;
        }
      }
    }
    SortDistinct(Distinct(cats));
    Sort(Distinct(cats))
  }

  /** The category list depends only on the set of categories: it is the
      one strictly sorted sequence of them. */
  lemma {:induction false} CategoriesDetermined(qs: seq<Quote>, s: seq<string>)
    requires StrictlySorted(s)
    requires forall c :: c in s <==> c in CategorySet(qs)
    ensures s == Categories(qs)
  {
    StrictlySortedUnique(s, Categories(qs));
  }

  /** `localStorage.getItem("lastCategory") || "all"`. */
  function LastSelected(stored: Option<string>): (r: string)
    ensures r != []
    ensures r == All || stored == Some(r)
    ensures stored.Some? && stored.value != [] ==> r == stored.value
  {
    if stored.Some? && stored.value != [] then stored.value else All
  }

  /** `select.value || lastSelected`. */
  function CurrentValue(selectValue: string, stored: Option<string>): (r: string)
    ensures r != []
    ensures selectValue != [] ==> r == selectValue
    ensures selectValue == [] ==> r == LastSelected(stored)
  {
    if selectValue != [] then selectValue else LastSelected(stored)
  }

  /** The option values of the rebuilt select: "all", then the categories. */
  function OptionValues(qs: seq<Quote>): (r: seq<string>)
    ensures |r| == |Categories(qs)| + 1 && r[0] == All
    ensures forall c :: c in r <==> c == All || c in CategorySet(qs)
  {
    [All] + Categories(qs)
  }

  /** The selection after populateCategories rebuilds the options: the
      current value when it is still offered, else "all". */
  function RestoreSelection(qs: seq<Quote>, selectValue: string, stored: Option<string>): (r: string)
    ensures r == All || r in CategorySet(qs)
    ensures var current := CurrentValue(selectValue, stored);
      r == current <==> current == All || current in CategorySet(qs)
    ensures var current := CurrentValue(selectValue, stored);
      !(current == All || current in CategorySet(qs)) ==> r == All
  {
    var current := CurrentValue(selectValue, stored);
    if current in OptionValues(qs) then current else All
  }

  /** A selected category that no quote has any longer falls back to "all". */
  lemma {:induction false} RestoreFallsBackToAll()
    ensures RestoreSelection([Quote("A", "X")], "Z", None) == All
  {
    var qs := [Quote("A", "X")];
    assert CategorySet(qs) == {"X"} by {
      assert qs[0] in qs;
    }
  }

  // ---------------------------------------------------------------------
  // Filtering and the random pick

  /** The selected value: `select ? select.value : "all"`. */
  function SelectedValue(select: Option<string>): (r: string)
    ensures select.Some? ==> r == select.value
    ensures select.None? ==> r == All
  {
    if select.Some? then select.value else All
  }

  /** getFilteredQuotes: every quote for "all", else the quotes of the
      selected category. */
  function FilteredQuotes(qs: seq<Quote>, select: Option<string>): (r: seq<Quote>)
    ensures SelectedValue(select) == All ==> r == qs
    ensures SelectedValue(select) != All ==>
      forall q :: multiset(r)[q] == if q.category == SelectedValue(select) then multiset(qs)[q] else 0
    ensures SelectedValue(select) != All ==>
      forall q :: q in r <==> q in qs && q.category == SelectedValue(select)
  {
    var selected := SelectedValue(select);
    FilterCount(qs, InCategory(selected));
    if selected == All then qs else Filter(qs, InCategory(selected))
  }

  /** Filtering keeps the quotes in their stored order. */
  lemma {:induction false} FilteredQuotesConcat(a: seq<Quote>, b: seq<Quote>, select: Option<string>)
    ensures FilteredQuotes(a + b, select) == FilteredQuotes(a, select) + FilteredQuotes(b, select)
  {
    var selected := SelectedValue(select);
    if selected != All {
      FilterConcat(a, b, InCategory(selected));
    }
  }

  /** After the selection has been restored, a non-empty store always has a
      quote to show: a category the select offers is one some quote has. */
  lemma {:induction false} RestoredSelectionHasQuotes(qs: seq<Quote>, selectValue: string, stored: Option<string>)
    requires qs != []
    ensures FilteredQuotes(qs, Some(RestoreSelection(qs, selectValue, stored))) != []
  {
    var r := RestoreSelection(qs, selectValue, stored);
    if r != All {
      var q :| q in qs && q.category == r;
      assert q in FilteredQuotes(qs, Some(r));
    }
  }

  /** `Math.floor(Math.random() * n)` for a draw in [0, 1): an index below n. */
  function DrawIndex(draw: real, n: nat): (i: nat)
    requires 0.0 <= draw < 1.0 && n > 0
    ensures i < n
  {
    assert draw * (n as real) < n as real by {
      assert (1.0 - draw) * (n as real) > 0.0;
    }
    (draw * (n as real)).Floor
  }

  /** Every index is drawn: the draw k/n gives index k. */
  lemma {:induction false} DrawIndexReaches(n: nat, k: nat)
    requires k < n
    ensures 0.0 <= (k as real) / (n as real) < 1.0
    ensures DrawIndex((k as real) / (n as real), n) == k
  {
    var draw := (k as real) / (n as real);
    assert draw * (n as real) == k as real;
  }

  /** showRandomQuote with the drawn index `idx` (see DrawIndex): nothing when
      the filtered list is empty, otherwise the filtered quote at `idx`. */
  function ShowRandomQuote(qs: seq<Quote>, select: Option<string>, idx: nat): (r: Option<Quote>)
    requires FilteredQuotes(qs, select) != [] ==> idx < |FilteredQuotes(qs, select)|
    ensures r.None? <==> FilteredQuotes(qs, select) == []
    ensures r.Some? ==> r.value in FilteredQuotes(qs, select)
    ensures r.Some? ==> r.value.category == SelectedValue(select) || SelectedValue(select) == All
    ensures r.Some? ==> r.value == FilteredQuotes(qs, select)[idx]
  {
    var list := FilteredQuotes(qs, select);
    if |list| == 0 then None else Some(list[idx])
  }

  /** Every quote of the filtered list can be shown: some drawn index picks it. */
  lemma {:induction false} EveryFilteredQuoteShown(qs: seq<Quote>, select: Option<string>, q: Quote)
    requires q in FilteredQuotes(qs, select)
    ensures exists idx: nat :: idx < |FilteredQuotes(qs, select)| && ShowRandomQuote(qs, select, idx) == Some(q)
  {
    var list := FilteredQuotes(qs, select);
    var k :| 0 <= k < |list| && list[k] == q;
    assert ShowRandomQuote(qs, select, k) == Some(q);
  }

  /** A quote is picked by as many drawn indices as it occurs in the filtered
      list, so equally often occurring quotes are equally likely under a
      uniform draw. */
  lemma {:induction false} ShowRandomQuoteCount(qs: seq<Quote>, select: Option<string>, q: Quote)
    ensures |set idx: nat | idx < |FilteredQuotes(qs, select)| && ShowRandomQuote(qs, select, idx) == Some(q)|
         == multiset(FilteredQuotes(qs, select))[q]
  {
    var list := FilteredQuotes(qs, select);
    assert (set idx: nat | idx < |list| && ShowRandomQuote(qs, select, idx) == Some(q)) == Positions(list, q);
    PositionsCount(list, q);
  }

  /** A category with a single quote shows that quote whatever the draw. */
  lemma {:induction false} SingleMatchAlwaysShown(qs: seq<Quote>, select: Option<string>, idx: nat)
    requires |FilteredQuotes(qs, select)| == 1 && idx < 1
    ensures ShowRandomQuote(qs, select, idx) == Some(FilteredQuotes(qs, select)[0])
  {
  }

  /** displayQuote's choice with the drawn index `idx` of
      `Math.floor(Math.random() * Math.max(1, n))`: the given quote when there
      is one, otherwise the filtered quote at `idx`, and nothing when the
      filtered list is empty (index 0 is then past its end). */
  function DisplayQuote(quoteObj: Option<Quote>, qs: seq<Quote>, select: Option<string>, idx: nat): (r: Option<Quote>)
    requires idx < (if |FilteredQuotes(qs, select)| > 1 then |FilteredQuotes(qs, select)| else 1)
    ensures quoteObj.Some? ==> r == quoteObj
    ensures quoteObj.None? ==> r == ShowRandomQuote(qs, select, idx)
  {
    if quoteObj.Some? then quoteObj
    else
      var list := FilteredQuotes(qs, select);
      if idx < |list| then Some(list[idx]) else None
  }

  /** The filter and pick scenario: with A/X and B/Y stored, category "Y"
      always shows B/Y and category "Z" shows nothing. */
  lemma {:induction false} FilterExample()
    ensures ShowRandomQuote([Quote("A", "X"), Quote("B", "Y")], Some("Y"), 0) == Some(Quote("B", "Y"))
    ensures ShowRandomQuote([Quote("A", "X"), Quote("B", "Y")], Some("Z"), 0) == None
  {
    var qs := [Quote("A", "X"), Quote("B", "Y")];
    assert qs[1..] == [Quote("B", "Y")] && qs[1..][1..] == [];
    assert Filter(qs, InCategory("Y")) == [Quote("B", "Y")];
    assert Filter(qs, InCategory("Z")) == [];
  }
}
