# Quote store of the dynamic quote page

This project models the data logic of the page script
`dom-manipulation/script.js`. The page keeps an ordered list of quotes in a
module-level variable. Each quote is a `{text, category}` record. The list
is persisted in the browser's storage slot `quotes`. The page can:

- show one random quote;
- add a quote typed into two input fields;
- build a category selector: `"all"`, then each distinct category;
- show the quotes of the selected category joined by `<br>`;
- import a JSON file that replaces the list;
- every minute, fetch a list of posts from a placeholder server. Each post's
  title becomes a quote under `"general"`, and that list replaces the local
  one ("server data takes precedence").

Two modules:

- `QuoteModel` (`model.dfy`) holds the pure parts: the `Quote` record, the
  display format, the JavaScript `join`, the category filter, the category
  option list built from a JavaScript `Set` (insertion order), the mapping of
  server items, and the index `Math.floor(Math.random() * n)`. Lemmas state
  what each of them promises.
- `QuoteStore` (`store.dfy`) holds the class `Store`. Its field `quotes` is
  the global list and its field `saved` is the storage slot. Methods that
  change the list state their new value and keep `Synced()`, which says the
  slot agrees with memory. Methods that only read the list (random pick,
  selector rebuild, filtered display) are tied to the `QuoteModel` functions
  and to their proved properties.

Other variants of this page in the same repository merge server data by a
symmetric difference on quote text and remember the selected category.
This file does neither: `resolveConflicts` overwrites the list, and the
selector always starts from `"all"`. The model follows this file.

Only `addQuote` requires non-empty text and category
(`dom-manipulation/script.js:21`). An imported file or a server title may put
an empty string into the list, and the model allows it (`ReplaceAll`,
`MapServer`).

Two behaviours of the code are proved as stated rather than corrected:

- A quote whose category is literally `"all"` makes `"all"` appear twice in
  the selector. Selecting it shows every quote, so such quotes cannot be
  filtered on their own (`AllOptionRepeated`).
- The display `"text" - category` is ambiguous when a text itself contains
  `" - ` (`FormatAmbiguous`). It is unambiguous between quotes that share
  their text or their category (`FormatInjective`).

## Model

| member | source | states |
|---|---|---|
| `QuoteModel.Format` | dom-manipulation/script.js:14 | the display is a double quote, the text, the four characters `" - ` (double quote, space, dash, space), then the category, so its length is the two lengths plus five |
| `QuoteModel.FormatInjective` | dom-manipulation/script.js:14 | two quotes that share text or category have equal displays exactly when they are equal |
| `QuoteModel.FormatAmbiguous` | dom-manipulation/script.js:51 | two different quotes exist whose displays coincide, because a text may contain `" - ` |
| `QuoteModel.Join` | dom-manipulation/script.js:51 | `Array.prototype.join` gives the empty string for no parts and otherwise begins with the first part; `JoinAppend` states how the separators fall |
| `QuoteModel.JoinAppend` | dom-manipulation/script.js:51 | `join` of a concatenation is the two joins with one separator between them |
| `QuoteModel.Formats` | dom-manipulation/script.js:51 | `map` to display strings keeps length and position: element i is the format of quote i |
| `QuoteModel.Render` | dom-manipulation/script.js:51 | `map(format).join('<br>')` is empty for no quotes and otherwise begins with the first quote's format; `RenderEmpty`, `RenderSingle` and `RenderAppend` pin it down fully |
| `QuoteModel.RenderEmpty` | dom-manipulation/script.js:51 | the joined display is the empty string exactly when there are no quotes |
| `QuoteModel.RenderSingle` | dom-manipulation/script.js:51 | one quote renders as its own format, with no `<br>` |
| `QuoteModel.RenderAppend` | dom-manipulation/script.js:51 | rendering keeps order: the display of `a + b` is that of `a`, `<br>`, then that of `b` |
| `QuoteModel.Matching` | dom-manipulation/script.js:49 | the filter result is no longer than the list and holds exactly the list's quotes of that category |
| `QuoteModel.MatchingCount` | dom-manipulation/script.js:49 | each quote of the category is kept as often as it occurs; every other quote is dropped |
| `QuoteModel.Filter` | dom-manipulation/script.js:47-50 | `"all"` returns the whole list unchanged; any other value returns exactly the quotes of that category, each one in the list |
| `QuoteModel.FilterCount` | dom-manipulation/script.js:47-50 | with a value other than `"all"`, the result is the multiset of the list's quotes of that category |
| `QuoteModel.FilterAppend` | dom-manipulation/script.js:47-50 | the filter keeps the original order: filtering `a + b` is filtering `a`, then filtering `b` |
| `QuoteModel.FilterIdempotent` | dom-manipulation/script.js:47-50 | filtering an already filtered list by the same value changes nothing |
| `QuoteModel.FilterKeepsAll` | dom-manipulation/script.js:49 | a list whose every quote has the category is returned unchanged |
| `QuoteModel.DisplayEmpty` | dom-manipulation/script.js:45-52 | the filtered display is empty exactly when no quote passes: for `"all"` when the list is empty, otherwise when no quote has that category |
| `QuoteModel.CategoryColumn` | dom-manipulation/script.js:34 | `quotes.map(q => q.category)` keeps length and position |
| `QuoteModel.Distinct` | dom-manipulation/script.js:34 | the `Set`'s elements are exactly the values of the input, without duplicates |
| `QuoteModel.DistinctFirstSeenOrder` | dom-manipulation/script.js:34-42 | the `Set` iterates its elements in the order of their first occurrence in the input |
| `QuoteModel.DistinctConstant` | dom-manipulation/script.js:34 | a non-empty input holding one value throughout yields just that value |
| `QuoteModel.Categories` | dom-manipulation/script.js:34-42 | the option list starts with `"all"` and has at most one option per quote besides it; `CategoriesShape` states the full shape |
| `QuoteModel.CategoriesShape` | dom-manipulation/script.js:33-42 | the options are `"all"`, then each category present in the list exactly once, in first-seen order, and nothing else |
| `QuoteModel.AllOptionRepeated` | dom-manipulation/script.js:36-50 | a quote filed under `"all"` makes `"all"` occur twice among the options, and selecting it shows the whole list |
| `QuoteModel.OptionsSelectSomething` | dom-manipulation/script.js:33-50 | for a value other than `"all"`, the filter is non-empty exactly when the value is one of the options |
| `QuoteModel.CategoriesAfterAppend` | dom-manipulation/script.js:22-24 | after appending a quote, the options are unchanged if its category was present, otherwise they gain that category at the end |
| `QuoteModel.MapServer` | dom-manipulation/script.js:93 | the mapped list has the items' length and order; element i has the title of item i as text and `"general"` as category |
| `QuoteModel.ServerQuotesCategories` | dom-manipulation/script.js:93-103 | after a sync, the options are `"all"` alone (empty server list) or `"all"`, `"general"`, and filtering by `"general"` shows the whole list |
| `QuoteModel.RandomIndex` | dom-manipulation/script.js:12 | `floor(random * n)` with random in [0, 1) lies in [0, n) |
| `QuoteModel.RandomIndexReachesAll` | dom-manipulation/script.js:12 | every index below n is chosen by some random value |
| `QuoteStore.Store.Load` | dom-manipulation/script.js:1 | at page load the list is the saved list, or empty when nothing was saved; slot and list agree |
| `QuoteStore.Store.Save` | dom-manipulation/script.js:3-5 | after saving, the slot holds exactly the list in memory |
| `QuoteStore.Store.Add` | dom-manipulation/script.js:17-30 | with non-empty text and category, `{text, category}` is appended after the unchanged earlier quotes and saved; if either is empty, list and slot are unchanged |
| `QuoteStore.Store.ReplaceAll` | dom-manipulation/script.js:99-101 | the list and the slot become the given list, whatever the list held before (server wins; also the import at line 69) |
| `QuoteStore.Store.ImportFile` | dom-manipulation/script.js:65-76 | a parsed file replaces list and slot wholesale; a parse failure leaves both unchanged |
| `QuoteStore.Store.FetchFromServer` | dom-manipulation/script.js:86-96 | after a sync the list is the mapped server list: same length as the items, titles as texts, `"general"` everywhere, and it is saved |
| `QuoteStore.Store.ShowRandomQuote` | dom-manipulation/script.js:7-15 | an empty list shows `No quotes available.` and indexes nothing; otherwise the index is `floor(random * n)`, below n, and the display is that quote's format |
| `QuoteStore.Store.PopulateCategories` | dom-manipulation/script.js:33-43 | the option values built one by one are `"all"` followed by the distinct categories, first the `"all"`, with no repeats after it, exactly the categories present |
| `QuoteStore.Store.FilterQuotes` | dom-manipulation/script.js:45-52 | the display is the `<br>`-join of the formatted filter result, and it is empty exactly when nothing passes the filter |

## Left out

- DOM access: reading the input fields and the selector, writing the
  display, clearing the inputs (lines 25-26), creating option elements, and
  the `alert`s. The model returns the strings and sequences that would be
  written, and `Add`'s and `ImportFile`'s boolean results stand for the
  alert branches.
- The re-render calls that follow each change (lines 24, 27, 71-73,
  102-103). Each is modelled as its own operation, but a mutation does not
  call them. `CategoriesAfterAppend` and `ServerQuotesCategories` state what
  the rebuilt selector holds.
- JSON text: `JSON.parse` and `JSON.stringify` (lines 1, 4, 55, 68). The
  slot holds the list itself, and a file import receives the parse result.
  The model does not cover a stored text that throws at load or parses to a
  falsy value, nor an imported file that parses to something other than a
  list of quotes.
- `exportToJson` (lines 54-63). It only serialises the list into a
  downloaded file and does not change it.
- `fetch`, its promise chain and its failures (lines 89-95). The model
  takes the server's items as a parameter. A failed fetch never reaches
  `resolveConflicts`, which is the same as not calling `FetchFromServer`.
  Items are reduced to their `title` string.
- `setInterval` (line 107), the event listeners (lines 78-83) and any
  interleaving of asynchronous completions. Each operation is modelled as
  one atomic step.
- `QuoteModel.RandomIndex`: `Math.random()` is a caller-supplied fraction
  `num / den` in [0, 1). Floating-point rounding of the product is not
  modelled.
- A merge policy by symmetric difference of quote texts. It does not occur
  in this file.
