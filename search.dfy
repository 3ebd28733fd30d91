/**
 * The filter of `filterAndSearch`: a stable filter keeping the records that
 * pass both the category condition and the free-text search condition.
 */
module Search {
  import opened Text
  import opened Csv

  /** The category condition: the sentinel `all`, or exact, case-sensitive equality. */
  predicate CategoryMatch(item: Record, selectedCategory: string)
  {
    selectedCategory == "all" || item.category == selectedCategory
  }

  /**
   * The search condition for an already normalised term: the term is empty, or
   * occurs in the lower-cased title, description or category.
   */
  predicate SearchMatch(item: Record, searchTerm: string)
  {
    searchTerm == "" ||
    Includes(Lower(item.title), searchTerm) ||
    Includes(Lower(item.description), searchTerm) ||
    Includes(Lower(item.category), searchTerm)
  }

  /** The predicate handed to `.filter`. */
  predicate Matches(item: Record, searchTerm: string, selectedCategory: string)
  {
    CategoryMatch(item, selectedCategory) && SearchMatch(item, searchTerm)
  }

  /** `searchInput.value.toLowerCase().trim()`. */
  function NormalizeSearch(input: string): string
  {
    Trim(Lower(input))
  }

  /** `allLibraryData.filter(...)` with the normalised term. */
  function FilterRecords(data: seq<Record>, searchTerm: string, selectedCategory: string): seq<Record>
  {
    if data == [] then []
    else
      (if Matches(data[0], searchTerm, selectedCategory) then [data[0]] else []) +
      FilterRecords(data[1..], searchTerm, selectedCategory)
  }

  /** What `filterAndSearch` hands to the renderer, from the raw search input. */
  function FilterAndSearch(allLibraryData: seq<Record>, searchInput: string, selectedCategory: string): seq<Record>
  {
    FilterRecords(allLibraryData, NormalizeSearch(searchInput), selectedCategory)
  }

  /** `a` is `b` with some elements left out and the rest in their original order. */
  predicate IsSubsequence(a: seq<Record>, b: seq<Record>)
    decreases |b|
  {
    if a == [] then true
    else if b == [] then false
    else (a[0] == b[0] && IsSubsequence(a[1..], b[1..])) || IsSubsequence(a, b[1..])
  }

  /** The filter returns a subsequence of the dataset: it never reorders. */
  lemma {:induction false} FilterIsSubsequence(data: seq<Record>, searchTerm: string, selectedCategory: string)
    ensures IsSubsequence(FilterRecords(data, searchTerm, selectedCategory), data)
    decreases |data|
  {
    if data != [] {
      var rest := FilterRecords(data[1..], searchTerm, selectedCategory);
      FilterIsSubsequence(data[1..], searchTerm, selectedCategory);
      if Matches(data[0], searchTerm, selectedCategory) {
        var r := [data[0]] + rest;
        assert FilterRecords(data, searchTerm, selectedCategory) == r;
        assert r[0] == data[0] && r[1..] == rest;
      } else {
        assert FilterRecords(data, searchTerm, selectedCategory) == rest;
        if rest != [] {
          assert IsSubsequence(rest, data);
        }
      }
    }
  }

  /**
   * The filter keeps every occurrence of a matching record and none of a
   * record that does not match.
   */
  lemma {:induction false} FilterCounts(data: seq<Record>, searchTerm: string, selectedCategory: string, x: Record)
    ensures multiset(FilterRecords(data, searchTerm, selectedCategory))[x] ==
      if Matches(x, searchTerm, selectedCategory) then multiset(data)[x] else 0
    decreases |data|
  {
    if data != [] {
      FilterCounts(data[1..], searchTerm, selectedCategory, x);
      assert data == [data[0]] + data[1..];
    }
  }

  /** A record is in the result exactly when it is in the dataset and passes both conditions. */
  lemma FilterMembership(data: seq<Record>, searchTerm: string, selectedCategory: string, x: Record)
    ensures x in FilterRecords(data, searchTerm, selectedCategory) <==>
      x in data && CategoryMatch(x, selectedCategory) && SearchMatch(x, searchTerm)
  {
    FilterCounts(data, searchTerm, selectedCategory, x);
  }

  /** When every record matches, the filter returns the dataset unchanged. */
  lemma {:induction false} FilterKeepsAll(data: seq<Record>, searchTerm: string, selectedCategory: string)
    requires forall k :: 0 <= k < |data| ==> Matches(data[k], searchTerm, selectedCategory)
    ensures FilterRecords(data, searchTerm, selectedCategory) == data
    decreases |data|
  {
    if data != [] {
      FilterKeepsAll(data[1..], searchTerm, selectedCategory);
      assert data == [data[0]] + data[1..];
    }
  }

  /** With `all` selected and a blank search box, every record is shown, in order. */
  lemma ShowAllWhenBlank(data: seq<Record>, searchInput: string)
    requires forall k :: 0 <= k < |searchInput| ==> IsWhitespace(searchInput[k])
    ensures FilterAndSearch(data, searchInput, "all") == data
  {
    forall k | 0 <= k < |Lower(searchInput)|
      ensures IsWhitespace(Lower(searchInput)[k])
    {
      LowerKeepsWhitespace(searchInput[k]);
    }
    TrimAllWhitespace(Lower(searchInput));
    FilterKeepsAll(data, "", "all");
  }

  /** With a blank search, exactly the records of the selected category are kept. */
  lemma CategoryOnly(data: seq<Record>, selectedCategory: string, x: Record)
    requires selectedCategory != "all"
    ensures x in FilterAndSearch(data, "", selectedCategory) <==> x in data && x.category == selectedCategory
  {
    assert NormalizeSearch("") == "" by {
      TrimAllWhitespace(Lower(""));
    }
    FilterMembership(data, "", selectedCategory, x);
  }

  /** The search is case-insensitive: only the lower-cased input matters. */
  lemma SearchIgnoresCase(data: seq<Record>, searchInput: string, selectedCategory: string)
    ensures FilterAndSearch(data, searchInput, selectedCategory) ==
      FilterAndSearch(data, Lower(searchInput), selectedCategory)
  {
    LowerProperties(searchInput);
  }

  /** A record whose title contains the term matches, whatever the case of either. */
  lemma TitleMatch(item: Record, searchInput: string)
    requires Includes(Lower(item.title), NormalizeSearch(searchInput))
    ensures item in FilterAndSearch([item], searchInput, "all")
  {
    FilterMembership([item], NormalizeSearch(searchInput), "all", item);
  }

  /** The title `Dune` is found by the search `dune`. */
  lemma DuneExample(item: Record, searchInput: string)
    requires item.title == "Dune" && searchInput == "dune"
    ensures item in FilterAndSearch([item], searchInput, "all")
  {
    assert Lower(item.title) == searchInput;
    assert IsTrimmed(Lower(searchInput));
    TrimOfTrimmed(Lower(searchInput));
    IncludesSelf(searchInput);
    TitleMatch(item, searchInput);
  }
}
