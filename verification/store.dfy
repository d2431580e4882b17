/** The page's global quote list, the copy of it kept in the browser's
    storage slot `quotes`, and the operations that read or replace it. */
module QuoteStore {
  import opened QuoteModel

  class Store {
    /** The module-level list of quotes, in insertion order. */
    var quotes: seq<Quote>
    /** The storage slot `quotes` as the list it holds (its JSON text is
        not modelled); `None` while nothing has been saved. */
    var saved: Option<seq<Quote>>

    /** The slot agrees with the list in memory: it holds that list, or it
        is empty and so is the list. */
    predicate Synced()
      reads this
    {
      saved == Some(quotes) || (saved == None && quotes == [])
    }

    /** Page load: the saved list, or the empty list when nothing was saved. */
    constructor Load(slot: Option<seq<Quote>>)
      ensures saved == slot
      ensures quotes == if slot.Some? then slot.value else []
      ensures Synced()
    {
      quotes := if slot.Some? then slot.value else [];
      saved := slot;
    }

    /** Writes the list to the storage slot. */
    method Save()
      modifies this`saved
      ensures saved == Some(quotes) && Synced()
    {
      saved := Some(quotes);
    }

    /** Adds a quote from the two input fields. Both must be non-empty (the
        only falsy string); otherwise nothing changes and the user is
        alerted. A successful add appends at the end and saves. */
    method Add(text: string, category: string) returns (added: bool)
      modifies this
      ensures added <==> text != "" && category != ""
      ensures added ==> quotes == old(quotes) + [Quote(text, category)] && saved == Some(quotes)
      ensures !added ==> quotes == old(quotes) && saved == old(saved)
      ensures old(Synced()) ==> Synced()
    {
      added := text != "" && category != "";
      if added {
        quotes := quotes + [Quote(text, category)];
        Save();
      }
    }

    /** Replaces the whole list and saves it: the imported file's list, or
        the server's list when the server wins a conflict. Nothing of the
        previous list survives. */
    method ReplaceAll(incoming: seq<Quote>)
      modifies this
      ensures quotes == incoming && saved == Some(incoming)
      ensures Synced()
    {
      quotes := incoming;
      Save();
    }

    /** Import of a chosen file, given as the result of parsing its text
        (`None` when the parse throws). A parse failure stops before the
        assignment and leaves list and slot as they were; a parsed list
        replaces the store wholesale, without any merge. */
    method ImportFile(parsed: Option<seq<Quote>>) returns (imported: bool)
      modifies this
      ensures imported <==> parsed.Some?
      ensures imported ==> quotes == parsed.value && saved == Some(quotes)
      ensures !imported ==> quotes == old(quotes) && saved == old(saved)
      ensures old(Synced()) ==> Synced()
    {
      imported := parsed.Some?;
      if imported {
        ReplaceAll(parsed.value);
      }
    }

    /** One sync round: the fetched items become quotes under `"general"`
        and replace the list. */
    method FetchFromServer(items: seq<ServerItem>)
      modifies this
      ensures quotes == MapServer(items) && saved == Some(quotes)
      ensures |quotes| == |items|
      ensures forall i :: 0 <= i < |items| ==> quotes[i].text == items[i].title
      ensures forall i :: 0 <= i < |items| ==> quotes[i].category == ServerCategory
    {
      var serverQuotes := MapServer(items);
      ReplaceAll(serverQuotes);
    }

    /** Shows a random quote. The random number in [0, 1) is the fraction
        `num / den`. An empty list shows a fixed message and is never
        indexed; otherwise the chosen index is within the list and the
        display is that quote. */
    method ShowRandomQuote(num: nat, den: nat) returns (display: string, shown: Option<nat>)
      requires num < den
      ensures shown == None <==> quotes == []
      ensures shown == None ==> display == NoQuotesMessage
      ensures shown.Some? ==> shown.value < |quotes| && display == Format(quotes[shown.value])
      ensures shown.Some? ==> shown.value == RandomIndex(num, den, |quotes|)
    {
      if |quotes| == 0 {
        display, shown := NoQuotesMessage, None;
        return;
      }
      var randomIndex := RandomIndex(num, den, |quotes|);
      var quote := quotes[randomIndex];
      display, shown := Format(quote), Some(randomIndex);
    }

    /** Rebuilds the category selector: the `"all"` option, then one option
        per element of the set of categories, in the set's order. */
    method PopulateCategories() returns (options: seq<string>)
      ensures options == Categories(quotes)
      ensures options[0] == AllCategories
      ensures NoDuplicates(options[1..])
      ensures forall c :: c in options[1..] <==> exists q :: q in quotes && q.category == c
    {
      var categories := Distinct(CategoryColumn(quotes));
      options := [AllCategories];
      for k := 0 to |categories|
        invariant options == [AllCategories] + categories[..k]
      {
        options := options + [categories[k]];
      }
      assert categories[..|categories|] == categories;
      CategoriesShape(quotes);
    }

    /** The display for the selected filter value: the matching quotes,
        formatted and separated by `<br>`; empty exactly when nothing
        matches. */
    method FilterQuotes(category: string) returns (display: string)
      ensures display == Render(Filter(quotes, category))
      ensures display == "" <==>
        forall i :: 0 <= i < |quotes| ==> category != AllCategories && quotes[i].category != category
    {
      var filteredQuotes := quotes;
      if category != AllCategories {
        filteredQuotes := Matching(quotes, category);
      }
      display := Join(Formats(filteredQuotes), LineBreak);
      DisplayEmpty(quotes, category);
    }
  }
}
