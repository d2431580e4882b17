/** The pure part of the quote page: the quote record, how a quote is
    displayed, the category filter, the category option list, the mapping
    of server items into quotes and the index chosen for a random quote. */
module QuoteModel {

  datatype Option<T> = None | Some(value: T)

  /** One stored quote: free text and the category it was filed under. */
  datatype Quote = Quote(text: string, category: string)

  /** One item of the list the server returns; only its title is read. */
  datatype ServerItem = ServerItem(title: string)

  /** The filter value (and first option) that selects every quote. */
  const AllCategories: string := "all"
  /** What the display shows when the store is empty. */
  const NoQuotesMessage: string := "No quotes available."
  /** The separator between quotes in the filtered display. */
  const LineBreak: string := "<br>"
  /** The category every quote fetched from the server is filed under. */
  const ServerCategory: string := "general"

  // ---------------------------------------------------------------------
  // Display of one quote and of a list of quotes
  // ---------------------------------------------------------------------

  /** A quote as shown: its text in double quotes, a dash, its category. */
  function Format(q: Quote): (r: string)
    ensures |r| == |q.text| + |q.category| + 5
    ensures r[0] == '"' && r[1..|q.text| + 1] == q.text
    ensures r[|q.text| + 1..|q.text| + 5] == "\" - "
    ensures r[|r| - |q.category|..] == q.category
  {
    "\"" + q.text + "\" - " + q.category
  }

  /** Two quotes that share their text, or their category, display alike
      exactly when they are the same quote. */
  lemma FormatInjective(a: Quote, b: Quote)
    requires a.text == b.text || a.category == b.category
    ensures Format(a) == Format(b) <==> a == b
  {
    if Format(a) == Format(b) {
      var fa, fb := Format(a), Format(b);
      assert |a.text| == |b.text|;
      assert a.text == fa[1..|a.text| + 1] == fb[1..|b.text| + 1] == b.text;
      assert |a.category| == |b.category|;
      assert a.category == fa[|fa| - |a.category|..] == fb[|fb| - |b.category|..] == b.category;
    }
  }

  /** Without a shared part the display is ambiguous: a text that itself
      contains `" - ` shows like a different quote. */
  lemma FormatAmbiguous()
    ensures Format(Quote("a\" - b", "c")) == Format(Quote("a", "b\" - c"))
    ensures Quote("a\" - b", "c") != Quote("a", "b\" - c")
  {
  }

  /** The JavaScript `Array.prototype.join`: the parts with `sep` between
      consecutive ones, and the empty string for no parts. */
  function Join(parts: seq<string>, sep: string): (r: string)
    ensures parts == [] ==> r == ""
    ensures parts != [] ==> |r| >= |parts[0]| && r[..|parts[0]|] == parts[0]
  {
    if parts == [] then ""
    else if |parts| == 1 then parts[0]
    else parts[0] + sep + Join(parts[1..], sep)
  }

  /** Joining a concatenation puts one separator between the two joins. */
  lemma {:induction false} JoinAppend(a: seq<string>, b: seq<string>, sep: string)
    requires a != [] && b != []
    ensures Join(a + b, sep) == Join(a, sep) + sep + Join(b, sep)
  {
    if |a| == 1 {
      assert (a + b)[1..] == b;
    } else {
      assert (a + b)[1..] == a[1..] + b;
      JoinAppend(a[1..], b, sep);
    }
  }

  /** `quotes.map(quote => ...)`: every quote formatted, in order. */
  function Formats(qs: seq<Quote>): (r: seq<string>)
    ensures |r| == |qs|
    ensures forall i :: 0 <= i < |qs| ==> r[i] == Format(qs[i])
  {
    if qs == [] then [] else [Format(qs[0])] + Formats(qs[1..])
  }

  /** The display of a list of quotes: formatted quotes joined by `<br>`. */
  function Render(qs: seq<Quote>): (r: string)
    ensures qs == [] ==> r == ""
    ensures qs != [] ==> |r| >= |Format(qs[0])| && r[..|Format(qs[0])|] == Format(qs[0])
  {
    Join(Formats(qs), LineBreak)
  }

  /** The display is empty exactly when there is nothing to show. */
  lemma RenderEmpty(qs: seq<Quote>)
    ensures Render(qs) == "" <==> qs == []
  {
    if qs != [] {
      assert |Render(qs)| >= |Format(qs[0])| >= 5;
    }
  }

  /** A single quote renders as its own format, with no separator. */
  lemma RenderSingle(q: Quote)
    ensures Render([q]) == Format(q)
  {
  }

  /** Rendering preserves order: the display of `a + b` is the display of
      `a`, a line break, then the display of `b`. */
  lemma RenderAppend(a: seq<Quote>, b: seq<Quote>)
    requires a != [] && b != []
    ensures Render(a + b) == Render(a) + LineBreak + Render(b)
  {
    assert Formats(a + b) == Formats(a) + Formats(b);
    JoinAppend(Formats(a), Formats(b), LineBreak);
  }

  // ---------------------------------------------------------------------
  // Category filter
  // ---------------------------------------------------------------------

  /** `quotes.filter(quote => quote.category === c)`. */
  function Matching(qs: seq<Quote>, c: string): (r: seq<Quote>)
    ensures |r| <= |qs|
    ensures forall q :: q in r <==> q in qs && q.category == c
  {
    if qs == [] then []
    else (if qs[0].category == c then [qs[0]] else []) + Matching(qs[1..], c)
  }

  /** Each matching quote is kept as many times as the store holds it,
      every other quote not at all. */
  lemma {:induction false} MatchingCount(qs: seq<Quote>, c: string, q: Quote)
    ensures multiset(Matching(qs, c))[q] == if q.category == c then multiset(qs)[q] else 0
  {
    if qs != [] {
      assert qs == [qs[0]] + qs[1..];
      MatchingCount(qs[1..], c, q);
    }
  }

  /** The quotes shown for a selected filter value: all of them for
      `"all"`, otherwise those filed under exactly that category. */
  function Filter(qs: seq<Quote>, c: string): (r: seq<Quote>)
    ensures c == AllCategories ==> r == qs
    ensures c != AllCategories ==> forall q :: q in r <==> q in qs && q.category == c
  {
    if c == AllCategories then qs else Matching(qs, c)
  }

  /** Filtering by a category other than `"all"` keeps each quote of that
      category with its multiplicity and drops every other quote. */
  lemma FilterCount(qs: seq<Quote>, c: string, q: Quote)
    requires c != AllCategories
    ensures multiset(Filter(qs, c))[q] == if q.category == c then multiset(qs)[q] else 0
  {
    MatchingCount(qs, c, q);
  }

  /** The filter keeps the store's order: filtering a concatenation is
      the concatenation of the filtered parts. */
  lemma {:induction false} FilterAppend(a: seq<Quote>, b: seq<Quote>, c: string)
    ensures Filter(a + b, c) == Filter(a, c) + Filter(b, c)
  {
    if c != AllCategories && a != [] {
      assert (a + b)[0] == a[0] && (a + b)[1..] == a[1..] + b;
      FilterAppend(a[1..], b, c);
      assert Matching(a + b, c) == (if a[0].category == c then [a[0]] else []) + Matching(a[1..] + b, c);
    } else if a == [] {
      assert a + b == b;
    }
  }

  /** Filtering twice by the same value changes nothing more. */
  lemma FilterIdempotent(qs: seq<Quote>, c: string)
    ensures Filter(Filter(qs, c), c) == Filter(qs, c)
  {
    var r := Filter(qs, c);
    if c != AllCategories {
      assert forall i :: 0 <= i < |r| ==> r[i] in r;
      FilterKeepsAll(r, c);
    }
  }

  /** The filtered display is empty exactly when no quote passes the
      filter; for `"all"` that means the store is empty. */
  lemma DisplayEmpty(qs: seq<Quote>, c: string)
    ensures Render(Filter(qs, c)) == "" <==>
      forall i :: 0 <= i < |qs| ==> c != AllCategories && qs[i].category != c
  {
    RenderEmpty(Filter(qs, c));
    if c != AllCategories && Filter(qs, c) != [] {
      var q := Filter(qs, c)[0];
      assert q in Filter(qs, c);
    }
  }

  // ---------------------------------------------------------------------
  // Category option list
  // ---------------------------------------------------------------------

  /** `quotes.map(quote => quote.category)`. */
  function CategoryColumn(qs: seq<Quote>): (r: seq<string>)
    ensures |r| == |qs|
    ensures forall i :: 0 <= i < |qs| ==> r[i] == qs[i].category
  {
    if qs == [] then [] else [qs[0].category] + CategoryColumn(qs[1..])
  }

  predicate NoDuplicates(s: seq<string>)
  {
    forall i, j :: 0 <= i < j < |s| ==> s[i] != s[j]
  }

  /** The elements of a JavaScript `Set` built from `s`, in its iteration
      order: each value once, where it was first inserted. */
  function Distinct(s: seq<string>): (r: seq<string>)
    ensures forall x :: x in r <==> x in s
    ensures NoDuplicates(r)
    ensures |r| <= |s|
  {
    if s == [] then []
    else
      var d := Distinct(s[..|s| - 1]);
      if s[|s| - 1] in d then d else d + [s[|s| - 1]]
  }

  /** The option values of the category selector: `"all"`, then every
      distinct category of the store in first-seen order. */
  function Categories(qs: seq<Quote>): (r: seq<string>)
    ensures |r| >= 1 && r[0] == AllCategories
    ensures |r| <= |qs| + 1
  {
    [AllCategories] + Distinct(CategoryColumn(qs))
  }

  /** Position of the first occurrence of `x` in `s`. */
  function FirstIndex(s: seq<string>, x: string): (r: nat)
    requires x in s
    ensures r < |s| && s[r] == x && x !in s[..r]
  {
    if s[0] == x then 0 else 1 + FirstIndex(s[1..], x)
  }

  lemma FirstIndexUnique(s: seq<string>, x: string, k: nat)
    requires k < |s| && s[k] == x && x !in s[..k]
    ensures FirstIndex(s, x) == k
  {
  }

  /** Appending to a sequence does not move the first occurrence of a
      value already present. */
  lemma FirstIndexPrefix(p: seq<string>, s: seq<string>, x: string)
    requires x in p && p <= s
    ensures FirstIndex(s, x) == FirstIndex(p, x)
  {
    var r := FirstIndex(p, x);
    assert s[..r] == p[..r];
    FirstIndexUnique(s, x, r);
  }

  /** The distinct values come in the order of their first occurrence. */
  lemma {:induction false} DistinctFirstSeenOrder(s: seq<string>, i: nat, j: nat)
    requires i < j < |Distinct(s)|
    ensures FirstIndex(s, Distinct(s)[i]) < FirstIndex(s, Distinct(s)[j])
  {
    var p := s[..|s| - 1];
    var d := Distinct(p);
    var last := s[|s| - 1];
    assert p <= s;
    if j < |d| {
      assert Distinct(s)[i] == d[i] && Distinct(s)[j] == d[j];
      DistinctFirstSeenOrder(p, i, j);
      FirstIndexPrefix(p, s, d[i]);
      FirstIndexPrefix(p, s, d[j]);
    } else {
      assert last !in d && Distinct(s) == d + [last];
      assert Distinct(s)[i] == d[i] && Distinct(s)[j] == last;
      FirstIndexPrefix(p, s, d[i]);
      assert s[..|s| - 1] == p;
      FirstIndexUnique(s, last, |s| - 1);
    }
  }

  /** The option list: `"all"` first, then exactly the store's categories,
      each once, in the order they first occur in the store. */
  lemma CategoriesShape(qs: seq<Quote>)
    ensures Categories(qs)[0] == AllCategories
    ensures NoDuplicates(Categories(qs)[1..])
    ensures forall c :: c in Categories(qs)[1..] <==> exists q :: q in qs && q.category == c
    ensures forall i, j :: 1 <= i < j < |Categories(qs)| ==>
      FirstIndex(CategoryColumn(qs), Categories(qs)[i]) < FirstIndex(CategoryColumn(qs), Categories(qs)[j])
  {
    var col := CategoryColumn(qs);
    var d := Distinct(col);
    assert Categories(qs)[1..] == d;
    forall c
      ensures c in d <==> exists q :: q in qs && q.category == c
    {
      if c in d {
        var k :| 0 <= k < |col| && col[k] == c;
        assert qs[k] in qs;
      }
      if exists q :: q in qs && q.category == c {
        var q :| q in qs && q.category == c;
        var k :| 0 <= k < |qs| && qs[k] == q;
        assert col[k] == c;
      }
    }
    forall i, j | 1 <= i < j < |Categories(qs)|
      ensures FirstIndex(col, Categories(qs)[i]) < FirstIndex(col, Categories(qs)[j])
    {
      DistinctFirstSeenOrder(col, i - 1, j - 1);
    }
  }

  /** A quote filed under the literal category `"all"` makes `"all"`
      appear twice among the options, and selecting it still shows every
      quote. */
  lemma AllOptionRepeated(qs: seq<Quote>, k: nat)
    requires k < |qs| && qs[k].category == AllCategories
    ensures multiset(Categories(qs))[AllCategories] == 2
    ensures Filter(qs, qs[k].category) == qs
  {
    var col := CategoryColumn(qs);
    assert col[k] == AllCategories;
    NoDuplicatesOccursOnce(Distinct(col), AllCategories);
    assert multiset(Categories(qs)) == multiset([AllCategories]) + multiset(Distinct(col));
  }

  /** A value of a sequence without duplicates occurs in it exactly once. */
  lemma {:induction false} NoDuplicatesOccursOnce(s: seq<string>, x: string)
    requires NoDuplicates(s) && x in s
    ensures multiset(s)[x] == 1
  {
    assert s == [s[0]] + s[1..];
    if s[0] == x {
      assert x !in s[1..];
    } else {
      NoDuplicatesOccursOnce(s[1..], x);
    }
  }

  /** Every option other than `"all"` selects at least one quote, and any
      other value that is not an option selects none. */
  lemma OptionsSelectSomething(qs: seq<Quote>, c: string)
    requires c != AllCategories
    ensures Filter(qs, c) != [] <==> c in Categories(qs)
  {
    CategoriesShape(qs);
    if Filter(qs, c) != [] {
      assert Filter(qs, c)[0] in Filter(qs, c);
    }
    if c in Categories(qs) {
      assert c in Categories(qs)[1..];
      var q :| q in qs && q.category == c;
      assert q in Filter(qs, c);
    }
  }

  /** The options after one more quote: unchanged if its category is
      already present, otherwise that category appended at the end. */
  lemma CategoriesAfterAppend(qs: seq<Quote>, q: Quote)
    ensures Categories(qs + [q]) ==
      if q.category in CategoryColumn(qs) then Categories(qs) else Categories(qs) + [q.category]
  {
    var col := CategoryColumn(qs + [q]);
    assert col == CategoryColumn(qs) + [q.category];
    assert col[..|col| - 1] == CategoryColumn(qs);
    assert Distinct(col) ==
      if q.category in Distinct(CategoryColumn(qs)) then Distinct(CategoryColumn(qs))
      else Distinct(CategoryColumn(qs)) + [q.category];
  }

  // ---------------------------------------------------------------------
  // Server items and the random pick
  // ---------------------------------------------------------------------

  /** `data.map(item => ({ text: item.title, category: 'general' }))`. */
  function MapServer(items: seq<ServerItem>): (r: seq<Quote>)
    ensures |r| == |items|
    ensures forall i :: 0 <= i < |items| ==> r[i] == Quote(items[i].title, ServerCategory)
  {
    if items == [] then [] else [Quote(items[0].title, ServerCategory)] + MapServer(items[1..])
  }

  /** After a sync every quote is filed under `"general"`: the options are
      `"all"` and, unless the server list is empty, `"general"`; filtering
      by `"general"` shows the whole list. */
  lemma ServerQuotesCategories(items: seq<ServerItem>)
    ensures Categories(MapServer(items)) ==
      if items == [] then [AllCategories] else [AllCategories, ServerCategory]
    ensures Filter(MapServer(items), ServerCategory) == MapServer(items)
  {
    var qs := MapServer(items);
    if items != [] {
      DistinctConstant(CategoryColumn(qs), ServerCategory);
    }
    FilterKeepsAll(qs, ServerCategory);
  }

  /** A non-empty sequence holding one value throughout has just that
      value as its distinct elements. */
  lemma {:induction false} DistinctConstant(s: seq<string>, x: string)
    requires s != [] && forall i :: 0 <= i < |s| ==> s[i] == x
    ensures Distinct(s) == [x]
  {
    if |s| > 1 {
      DistinctConstant(s[..|s| - 1], x);
    }
  }

  /** A filter that every quote passes returns the list unchanged. */
  lemma {:induction false} FilterKeepsAll(qs: seq<Quote>, c: string)
    requires forall i :: 0 <= i < |qs| ==> qs[i].category == c
    ensures Filter(qs, c) == qs
  {
    if c != AllCategories && qs != [] {
      FilterKeepsAll(qs[1..], c);
    }
  }

  /** `Math.floor(Math.random() * n)`, with the random number in [0, 1)
      given as the fraction `num / den`. */
  function RandomIndex(num: nat, den: nat, n: nat): (r: nat)
    requires num < den && n > 0
    ensures r < n
  {
    IndexBound(num, den, n);
    (num * n) / den
  }

  lemma IndexBound(num: nat, den: nat, n: nat)
    requires num < den && n > 0
    ensures (num * n) / den < n
  {
    var q := (num * n) / den;
    assert q * den <= num * n;
    assert num * n < n * den;
    MulMonotone(n, q, den);
  }

  lemma MulMonotone(a: int, b: int, c: nat)
    ensures a <= b ==> a * c <= b * c
  {
    assert b * c - a * c == (b - a) * c;
  }

  /** Exact division: a multiple of `n` divided by `n` is its factor. */
  lemma DivExact(k: int, n: nat)
    requires n > 0
    ensures (k * n) / n == k
  {
    var q, r := (k * n) / n, (k * n) % n;
    assert (k - q) * n == r;
    MulMonotone(1, k - q, n);
    MulMonotone(k - q, -1, n);
  }

  /** Every position can be chosen: the fraction `k / n` picks index `k`. */
  lemma RandomIndexReachesAll(n: nat, k: nat)
    requires k < n
    ensures RandomIndex(k, n, n) == k
  {
    DivExact(k, n);
  }
}
