# Dynamic Quote Generator: a verified model of its list and string logic

The quote generator is a browser script (`dom-manipulation/script.js`). It keeps
a list of quotes, each a text and a category, in a module-level array
persisted under the `quotes` key of localStorage. Around that list it offers:

- adding a quote after trimming both fields;
- importing quotes from a JSON file, where the local list wins on equal text;
- syncing with a mock server, where the server wins on equal text;
- a category drop-down with an "all" entry, rebuilt from the list with the
  previous selection restored when possible;
- showing a random quote of the selected category;
- starting and stopping a periodic sync timer.

This project models that core in Dafny and proves what the script promises
about it.

- `text.dfy` (module `Text`): the JavaScript whitespace set shared by
  `String.prototype.trim` and the regular expression `\s`; trimming;
  `capitalize`; the first word of `split(/\s+/)`; `titleToCategory`.
- `seqs.dfy` (module `Seqs`): `Array.prototype.filter` and
  `Array.from(new Set(...))` on sequences.
- `order.dfy` (module `Order`): the default string order of
  `Array.prototype.sort`, and an insertion sort proved to give a sorted
  permutation.
- `quotes.dfy` (module `Quotes`): the pure parts, as functions. These are the
  quote record, the default quotes, add validation, the sync merge and the
  import merge, the category list with selection restore, category
  filtering, and the random pick with the drawn index as a parameter.
- `store.dfy` (module `StoreState`): the state the script updates in place,
  as a class `Store`. Its fields are the quote list (`quotes`), the decoded
  value under the `quotes` key (`stored`) and the periodic sync timer id
  (`syncTimer`). Its methods `Load`, `Save`, `AddQuote`, `Import`, `Sync`,
  `StartPeriodicSync` and `StopPeriodicSync` model `loadQuotes`,
  `saveQuotes`, `addQuote`, `importFromJsonFile`, `syncQuotes`,
  `startPeriodicSync` and `stopPeriodicSync`. Each method's contract gives the whole new state in
  terms of the functions of `Quotes`, and the lemmas there prove what those
  functions mean.

Inputs the script gets from the browser are parameters:

- the text inputs;
- the decoded file or stored value (`Json`: malformed, not an array, or an
  array of quotes);
- the server batch (empty when the fetch fails);
- the select's value;
- the index drawn from `Math.random`;
- the timer id handed out by `setInterval`.

Three behaviours of the code are worth stating plainly:

- **When sync reports a change.** Line 263 compares the merged list with the
  old list element by element, in order, and the merge puts the server batch
  first. So a batch holding only quotes already stored still reports a change
  when those quotes are not already at the front of the list;
  `Quotes.SyncReordersKnownQuote` shows such a case, and
  `Quotes.SyncUnchangedIff` states exactly when no change is reported.
- **What the import checks.** Line 201 keeps an imported record when its
  `text` is truthy and no existing quote has that text. Categories are not
  checked, and neither field is trimmed; `Quotes.ImportMerge` models this.
- **Duplicates within one import.** Line 201 removes duplicates only against
  the list from before the import, so a batch that repeats a new quote adds it
  twice (`Quotes.ImportKeepsBatchDuplicates`).

## Model

| member | source | states |
|---|---|---|
| Text.IsSpace | dom-manipulation/script.js:144-145 | tab, line feed, vertical tab, form feed, carriage return and space are whitespace, and no printable ASCII character from `!` to `~` is |
| Text.TrimStart | dom-manipulation/script.js:144-145 | the result is a suffix of the input, everything removed before it is whitespace, and it does not start with whitespace |
| Text.TrimEnd | dom-manipulation/script.js:144-145 | the result is a prefix of the input, everything removed after it is whitespace, and it does not end with whitespace |
| Text.Trim | dom-manipulation/script.js:144-145 | neither end of the result is whitespace, and the result is empty exactly when the input is all whitespace |
| Text.TrimInfix | dom-manipulation/script.js:144-145 | the trimmed string is the infix of the input after its leading whitespace, and only whitespace surrounds it in the input |
| Text.TrimIdempotent | dom-manipulation/script.js:296 | trimming an already trimmed string changes nothing |
| Text.ToUpper | dom-manipulation/script.js:302 | a lower-case ASCII letter becomes the upper-case letter 32 code points below it, every other character is kept, and whitespace stays whitespace |
| Text.Capitalize | dom-manipulation/script.js:300-303 | same length; the empty string stays empty; otherwise only the first character changes, to its upper case, and the tail is kept |
| Text.CapitalizeIdempotent | dom-manipulation/script.js:300-303 | capitalizing twice is capitalizing once, and capitalizing neither adds nor removes whitespace |
| Text.FirstWord | dom-manipulation/script.js:297 | the first element of `split(/\s+/)`: the longest whitespace-free prefix, followed in the input by whitespace or by nothing |
| Text.FirstWordWhole | dom-manipulation/script.js:297 | a whitespace-free string is its own first word |
| Text.DefaultTitleCategory | dom-manipulation/script.js:296-298 | the fallback title "Server" maps to the category "Server" |
| Text.TitleToCategory | dom-manipulation/script.js:294-299 | an empty title gives "Server"; otherwise the result is whitespace-free, empty only for a whitespace-only title, its first character is the upper case of the trimmed title's first character, and the rest is the trimmed title up to its first whitespace |
| Text.TitleToCategoryIdempotent | dom-manipulation/script.js:294-299 | a non-empty category that titleToCategory produced maps to itself when used as a title again |
| Seqs.Filter | dom-manipulation/script.js:92 | the result is no longer than the input and holds exactly the input's elements that satisfy the predicate |
| Seqs.FilterCount | dom-manipulation/script.js:92 | each kept element occurs as often as in the input, and each dropped element does not occur |
| Seqs.FilterConcat | dom-manipulation/script.js:260 | filtering distributes over concatenation, so the order is kept |
| Seqs.Distinct | dom-manipulation/script.js:60 | `Array.from(new Set(s))` has no repetitions and has the same elements as `s` |
| Seqs.PositionsCount | dom-manipulation/script.js:124-125 | an element occurs at as many positions of a sequence as the sequence's multiset counts it |
| Order.Le | dom-manipulation/script.js:60 | the default sort order on strings; a prefix sorts no later than its extensions |
| Order.LeFirstDifference | dom-manipulation/script.js:60 | `a` sorts no later than `b` exactly when `a` is a prefix of `b` or the character of `a` is the smaller at their first difference |
| Order.LeReflexive | dom-manipulation/script.js:60 | the sort order is reflexive |
| Order.LeAntisymmetric | dom-manipulation/script.js:60 | the sort order is antisymmetric |
| Order.LeTransitive | dom-manipulation/script.js:60 | the sort order is transitive |
| Order.LeTotal | dom-manipulation/script.js:60 | any two strings are comparable |
| Order.Sort | dom-manipulation/script.js:60 | sorting gives a sorted permutation of its input |
| Order.SortDistinct | dom-manipulation/script.js:60 | sorting a sequence without repetitions gives a strictly sorted sequence with the same elements |
| Order.StrictlySortedUnique | dom-manipulation/script.js:60 | two strictly sorted sequences with the same elements are equal |
| Quotes.DefaultQuotes | dom-manipulation/script.js:44-50 | three quotes, each with trimmed non-empty text and category, with distinct texts |
| Quotes.DefaultCategories | dom-manipulation/script.js:44-50 | the default quotes offer the categories Inspiration, Life and Motivation, in that order |
| Quotes.Validate | dom-manipulation/script.js:144-152 | a quote is made exactly when neither input is all whitespace; its fields are the two trimmed inputs and are well-formed |
| Quotes.SyncMerge | dom-manipulation/script.js:259-261 | the merge starts with the server batch; every later quote has a text the batch lacks; those later quotes are exactly the local quotes whose text the batch lacks |
| Quotes.SyncMergeCount | dom-manipulation/script.js:259-261 | after the batch, each local quote whose text the batch lacks occurs as often as in the local list, and no other quote occurs |
| Quotes.SyncServerWins | dom-manipulation/script.js:258-261 | on a text shared by a local and a server quote, the server quote is in the result, and every quote there with that text comes from the batch |
| Quotes.SyncKeepsMergedList | dom-manipulation/script.js:259-261 | a list that is already the batch followed by quotes with other texts is left as it is |
| Quotes.SyncIdempotent | dom-manipulation/script.js:259-263 | merging the merged list again with the same batch gives the same list |
| Quotes.SyncUnchangedIff | dom-manipulation/script.js:263 | the merge equals the old list exactly when the old list starts with the batch and no later quote shares a text with it |
| Quotes.SyncKeepsLocalOrder | dom-manipulation/script.js:260-261 | the kept local quotes stay in their original order |
| Quotes.SyncEmptyBatch | dom-manipulation/script.js:259-261 | merging with an empty batch gives the local list itself |
| Quotes.SyncKeepsTextsUnique | dom-manipulation/script.js:259-261 | when the local list and the batch each have distinct texts, the merge has distinct texts |
| Quotes.SyncExample | dom-manipulation/script.js:259-263 | local A/X, B/Y synced with [B/Z] gives [B/Z, A/X], which differs from the old list |
| Quotes.SyncReordersKnownQuote | dom-manipulation/script.js:261-263 | local A/X, B/Y synced with [B/Y] differs from the old list, although the batch brings nothing new |
| Quotes.ImportMerge | dom-manipulation/script.js:198-202 | the existing quotes are an unchanged prefix; the appended records have non-empty texts that no existing quote has, and are exactly the imported records with that property |
| Quotes.ImportMergeCount | dom-manipulation/script.js:198-202 | after the existing quotes, each imported record with a non-empty text that no existing quote has occurs as often as in the batch, and no other record occurs |
| Quotes.ImportIdempotent | dom-manipulation/script.js:198-202 | importing the same batch a second time adds nothing |
| Quotes.ImportKeepsBatchOrder | dom-manipulation/script.js:199-202 | the imported records are appended in import order |
| Quotes.ImportKeepsBatchDuplicates | dom-manipulation/script.js:198-201 | a batch holding twice a quote with a non-empty text that no existing quote has appends it twice, to any existing list |
| Quotes.Categories | dom-manipulation/script.js:60 | the category list is strictly sorted, with no repetitions, and holds exactly the categories of the quotes |
| Quotes.CategoriesDetermined | dom-manipulation/script.js:60 | any strictly sorted list of exactly those categories is the category list |
| Quotes.LastSelected | dom-manipulation/script.js:63 | a non-empty stored last category, else "all"; never empty |
| Quotes.CurrentValue | dom-manipulation/script.js:64 | the select's value when non-empty, else the last selected category; never empty |
| Quotes.OptionValues | dom-manipulation/script.js:68-78 | "all" first, then one option per category: exactly "all" and the categories of the quotes |
| Quotes.RestoreSelection | dom-manipulation/script.js:63-85 | the restored selection is "all" or a category of the quotes, and it is the current value (the select's value, else the stored last category, else "all") exactly when that is "all" or a category of the quotes, and otherwise "all" |
| Quotes.RestoreFallsBackToAll | dom-manipulation/script.js:81-85 | with only category X stored, a selected Z is no longer offered and the selection becomes "all" |
| Quotes.SelectedValue | dom-manipulation/script.js:90 | the select's value when there is a select, else "all" |
| Quotes.FilteredQuotes | dom-manipulation/script.js:88-93 | with "all" (or no select) the list itself; otherwise each quote of the selected category as often as in the list and nothing else |
| Quotes.FilteredQuotesConcat | dom-manipulation/script.js:92 | filtering keeps the stored order |
| Quotes.RestoredSelectionHasQuotes | dom-manipulation/script.js:81-92 | after the selection is restored, a non-empty list always has a quote of the selected category |
| Quotes.DrawIndex | dom-manipulation/script.js:124 | `Math.floor(draw * n)` for a draw in [0, 1) is an index below n |
| Quotes.DrawIndexReaches | dom-manipulation/script.js:124 | every index below n is drawn by some draw |
| Quotes.ShowRandomQuote | dom-manipulation/script.js:116-125 | nothing exactly when the filtered list is empty; otherwise the filtered quote at the drawn index, of the selected category unless "all" is selected |
| Quotes.EveryFilteredQuoteShown | dom-manipulation/script.js:124-125 | every quote of the filtered list is shown for some drawn index |
| Quotes.ShowRandomQuoteCount | dom-manipulation/script.js:124-125 | a quote is shown for as many drawn indices as it occurs in the filtered list |
| Quotes.SingleMatchAlwaysShown | dom-manipulation/script.js:124-125 | a category with a single quote always shows that quote |
| Quotes.DisplayQuote | dom-manipulation/script.js:99-104 | the given quote when there is one; otherwise what showRandomQuote picks with the same index, and that is nothing for an empty filtered list |
| Quotes.FilterExample | dom-manipulation/script.js:116-125 | with A/X and B/Y stored, category Y shows B/Y and category Z shows nothing |
| StoreState.Store.constructor | dom-manipulation/script.js:15-16 | no quotes, no timer, and the persisted value as given |
| StoreState.Store.Save | dom-manipulation/script.js:40-42 | the stored value becomes the current list |
| StoreState.Store.Load | dom-manipulation/script.js:24-38 | a stored array becomes the list and the stored value is kept; anything else makes the list the default quotes and persists them |
| StoreState.Store.AddQuote | dom-manipulation/script.js:144-154 | added exactly when neither input is all whitespace; then the list gains exactly the quote of the two trimmed inputs at its end and is persisted; otherwise list and stored value are unchanged |
| StoreState.Store.Import | dom-manipulation/script.js:187-211 | no file or a malformed or non-array payload changes nothing; otherwise the list becomes the import merge and is persisted |
| StoreState.Store.Sync | dom-manipulation/script.js:254-266 | reports a change exactly when the batch is non-empty and the merge differs from the list; then the list becomes the merge and is persisted; otherwise nothing changes |
| StoreState.Store.StartPeriodicSync | dom-manipulation/script.js:308-312 | starts the timer exactly when none is running; a running timer is kept |
| StoreState.Store.StopPeriodicSync | dom-manipulation/script.js:314-319 | reports a stop exactly when a timer was running; afterwards none is |
| StoreState.ReloadAfterSave | dom-manipulation/script.js:24-42 | loading right after saving gives the same list back |
| StoreState.SyncTwice | dom-manipulation/script.js:254-266 | a second sync with the same batch reports no change and leaves the list the first sync produced |
| StoreState.StartStartStop | dom-manipulation/script.js:308-319 | from no timer the first start succeeds, a second start while the timer runs is refused, and a stop then leaves no timer |

## Left out

- DOM work is not modelled: element lookups, rebuilding the options, rendering, and clearing the inputs. Nor are the early returns when an element is missing, apart from the select in getFilteredQuotes.
- sessionStorage (the last shown quote) and the `lastCategory` write of filterQuotes are not modelled: they are opaque persistence. The stored last category is the `stored` parameter of `Quotes.RestoreSelection`.
- JSON.parse and JSON.stringify are abstracted to a `Json` value: malformed, not an array, or an array of quote records. Items that are not `{text, category}` records, extra fields and key order are not represented. So the `changed` test at line 263 is modelled as equality of quote sequences.
- The network is not modelled: the fetch, the mapping of posts to quotes at lines 227-230, and the POST after an add. The server batch is an input of `StoreState.Store.Sync`.
- The file import is not modelled (FileReader, reading the file), and neither is the export (Blob, object URL, download link). The decoded file content is an input of `StoreState.Store.Import`.
- Timers, alerts and notifications are left out: setInterval, clearInterval, setTimeout, alert and showNotification. The timer id is an input of `StoreState.Store.StartPeriodicSync`.
- Asynchrony is left out: every operation runs to completion.
- Math.random is replaced by the drawn index, a parameter; `Quotes.DrawIndex` relates it to a draw in [0, 1). Uniformity is not modelled.
- The DOMContentLoaded start-up sequence is not modelled: it only calls the modelled operations in turn.
- Text.Capitalize: upper-cases ASCII letters only. JavaScript's toUpperCase follows full Unicode case mapping, which can also change a string's length.
- Text.Trim: works on Unicode code points. JavaScript strings are UTF-16 code units, so a character outside the Basic Multilingual Plane is one element in the model and two in the script.
- Order.Le: compares code points, while Array.prototype.sort compares UTF-16 code units. The two orders differ only for characters outside the Basic Multilingual Plane.
- Quotes.ImportMerge: a truthy `text` is modelled as a non-empty string. Imported items that are not objects, or whose `text` is some other truthy value, are not represented.
