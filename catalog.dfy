/**
 * The page's global state, `allLibraryData` and `uniqueCategories`, and the
 * imperative `parseCsvData` that fills it from the CSV text.
 */
module Catalog {
  import opened Text
  import opened Csv

  /** How a call of `parseCsvData` ends: normally, or with the header exception. */
  datatype Outcome = Parsed | Failed(error: CsvError)

  /** The categories of a sequence of records. */
  function CategoriesOf(records: seq<Record>): set<string>
    decreases |records|
  {
    if records == [] then {}
    else CategoriesOf(records[..|records| - 1]) + {records[|records| - 1].category}
  }

  lemma CategoriesOfAppend(records: seq<Record>, rec: Record)
    ensures CategoriesOf(records + [rec]) == CategoriesOf(records) + {rec.category}
  {
    assert (records + [rec])[..|records|] == records;
  }

  /** A category belongs to the records exactly when some record carries it. */
  lemma {:induction false} CategoriesOfMembers(records: seq<Record>, c: string)
    ensures c in CategoriesOf(records) <==> exists k :: 0 <= k < |records| && records[k].category == c
    decreases |records|
  {
    if records != [] {
      var init := records[..|records| - 1];
      CategoriesOfMembers(init, c);
      if c in CategoriesOf(init) {
        var k :| 0 <= k < |init| && init[k].category == c;
        assert records[k] == init[k];
      }
      forall k | 0 <= k < |init| ensures records[k] == init[k] { }
    }
  }

  /** The `map` over one more line gives one more record. */
  lemma RowsToRecordsAppend(rows: seq<string>, row: string, cols: Columns)
    ensures RowsToRecords(rows + [row], cols) == RowsToRecords(rows, cols) + [ToRecord(row, cols)]
  {
    var all := rows + [row];
    assert forall k :: 0 <= k < |rows| ==> all[k] == rows[k];
    assert all[|rows|] == row;
  }

  /** The `map` over one line more of the same rows. */
  lemma RowsToRecordsPrefix(rows: seq<string>, i: nat, cols: Columns)
    requires i < |rows|
    ensures RowsToRecords(rows[..i + 1], cols) == RowsToRecords(rows[..i], cols) + [ToRecord(rows[i], cols)]
  {
    assert rows[..i + 1] == rows[..i] + [rows[i]];
    RowsToRecordsAppend(rows[..i], rows[i], cols);
  }

  /** `set.add(c)` on an insertion-ordered set: appended unless already present. */
  function WithCategory(cats: seq<string>, c: string): seq<string>
  {
    if c in cats then cats else cats + [c]
  }

  /** The set after adding the categories of `records`, one after the other. */
  function Collect(cats: seq<string>, records: seq<Record>): seq<string>
    decreases |records|
  {
    if records == [] then cats
    else WithCategory(Collect(cats, records[..|records| - 1]), records[|records| - 1].category)
  }

  /** Adding a category keeps the elements distinct and adds exactly that element. */
  lemma WithCategoryProperties(cats: seq<string>, c: string)
    requires NoDuplicates(cats)
    ensures NoDuplicates(WithCategory(cats, c))
    ensures Elements(WithCategory(cats, c)) == Elements(cats) + {c}
  {
  }

  /**
   * Collecting keeps the elements distinct; the result holds the old elements
   * and the categories of the records, and nothing else.
   */
  lemma {:induction false} CollectProperties(cats: seq<string>, records: seq<Record>)
    requires NoDuplicates(cats)
    ensures NoDuplicates(Collect(cats, records))
    ensures Elements(Collect(cats, records)) == Elements(cats) + CategoriesOf(records)
    decreases |records|
  {
    if records != [] {
      var init := records[..|records| - 1];
      var last := records[|records| - 1];
      CollectProperties(cats, init);
      WithCategoryProperties(Collect(cats, init), last.category);
      assert records == init + [last];
      CategoriesOfAppend(init, last);
    }
  }

  /** Collecting one more record's category is one more `add`. */
  lemma CollectAppend(cats: seq<string>, records: seq<Record>, rec: Record)
    ensures Collect(cats, records + [rec]) == WithCategory(Collect(cats, records), rec.category)
  {
    assert (records + [rec])[..|records|] == records;
  }

  /** The callback of the `map` over the data lines, apart from collecting the category. */
  method ParseRow(line: string, cols: Columns) returns (rec: Record)
    ensures rec == ToRecord(line, cols)
  {
    var values := ScanRow(line);
    values := PadValues(values, MaxIndex(cols));
    rec := Record(values[cols.title], values[cols.category], values[cols.description], values[cols.url]);
  }

  class LibraryStore {
    /** The full dataset. */
    var allLibraryData: seq<Record>
    /** The JavaScript `Set` of categories, in its iteration order. */
    var uniqueCategories: seq<string>

    /** Between calls the set holds distinct categories in ascending order. */
    ghost predicate Valid()
      reads this
    {
      StrictlySorted(uniqueCategories)
    }

    /** The state at page load: no data and an empty category set. */
    constructor ()
      ensures Valid()
      ensures allLibraryData == [] && uniqueCategories == []
    {
      allLibraryData := [];
      uniqueCategories := [];
    }

    /**
     * `uniqueCategories.add(category)`. Only a step of `ParseCsvData`: it leaves
     * the set unsorted until the final sort.
     */
    method AddCategory(category: string)
      modifies this`uniqueCategories
      ensures uniqueCategories == WithCategory(old(uniqueCategories), category)
    {
      if category !in uniqueCategories {
        uniqueCategories := uniqueCategories + [category];
      }
    }

    /**
     * `lines.slice(1).map(...)`: one record per data line, in order, each
     * category added to the set as its line is read. Only a step of
     * `ParseCsvData`: the set is left in insertion order, not sorted.
     */
    method MapRows(rows: seq<string>, cols: Columns) returns (records: seq<Record>)
      modifies this`uniqueCategories
      ensures records == RowsToRecords(rows, cols)
      ensures uniqueCategories == Collect(old(uniqueCategories), records)
    {
      ghost var start := uniqueCategories;
      records := [];
      var i := 0;
      while i < |rows|
        invariant 0 <= i <= |rows|
        invariant records == RowsToRecords(rows[..i], cols)
        invariant uniqueCategories == Collect(start, records)
      {
        var rec := ParseRow(rows[i], cols);
        AddCategory(rec.category);
        CollectAppend(start, records, rec);
        RowsToRecordsPrefix(rows, i, cols);
        records := records + [rec];
        i := i + 1;
      }
      assert rows[..i] == rows;
    }

    /**
     * `parseCsvData`. When the header lacks a required name it fails before
     * touching any state. Otherwise the dataset is replaced by the parsed
     * records, and the category set, which is never cleared, gains their
     * categories and is re-sorted.
     */
    method ParseCsvData(csvText: string) returns (outcome: Outcome)
      requires Valid()
      modifies this
      ensures Valid()
      ensures outcome.Failed? <==> Parse(csvText).Failure?
      ensures outcome.Failed? ==>
        allLibraryData == old(allLibraryData) && uniqueCategories == old(uniqueCategories)
      ensures outcome.Parsed? ==> allLibraryData == Parse(csvText).value
      ensures outcome.Parsed? ==>
        Elements(uniqueCategories) == Elements(old(uniqueCategories)) + CategoriesOf(allLibraryData)
    {
      var lines := Lines(csvText);
      var header := ResolveHeader(lines[0]);
      ParseByHeader(csvText);
      if header.None? {
        return Failed(MissingRequiredHeaders);
      }
      StrictlySortedNoDuplicates(uniqueCategories);
      ghost var before := uniqueCategories;
      allLibraryData := MapRows(lines[1..], header.value);
      CollectProperties(before, allLibraryData);
      uniqueCategories := SortDistinct(uniqueCategories);
      return Parsed;
    }
  }

  /** A strictly ascending sequence holding exactly `Sci-Fi` and `History` is `History`, `Sci-Fi`. */
  lemma SortedPairExample(categories: seq<string>)
    requires StrictlySorted(categories)
    requires Elements(categories) == {"Sci-Fi", "History"}
    ensures categories == ["History", "Sci-Fi"]
  {
    var expected := ["History", "Sci-Fi"];
    assert Less(expected[0], expected[1]);
    assert Elements(expected) == {"Sci-Fi", "History"} by {
      assert expected[0] in Elements(expected) && expected[1] in Elements(expected);
    }
    SortedUnique(categories, expected);
  }

  /** Records with the categories `a`, `b`, `a` collect into a set holding exactly `a` and `b`. */
  lemma CollectRepeated(records: seq<Record>, a: string, b: string)
    requires |records| == 3
    requires records[0].category == a && records[1].category == b && records[2].category == a
    ensures NoDuplicates(Collect([], records))
    ensures Elements(Collect([], records)) == {a, b}
  {
    CollectProperties([], records);
    assert Elements([]) == {} by {
      ElementsEmpty([]);
    }
    forall c | c in CategoriesOf(records)
      ensures c == a || c == b
    {
      CategoriesOfMembers(records, c);
    }
    CategoriesOfMembers(records, a);
    CategoriesOfMembers(records, b);
  }

  /**
   * A first load whose records have the categories `Sci-Fi`, `History`, `Sci-Fi`
   * leaves the category set as exactly `History`, `Sci-Fi`: the duplicate is
   * dropped and the set is sorted.
   */
  lemma CategoryIndexExample(records: seq<Record>)
    requires |records| == 3
    requires records[0].category == "Sci-Fi" && records[1].category == "History" && records[2].category == "Sci-Fi"
    ensures NoDuplicates(Collect([], records))
    ensures SortDistinct(Collect([], records)) == ["History", "Sci-Fi"]
  {
    CollectRepeated(records, "Sci-Fi", "History");
    SortedPairExample(SortDistinct(Collect([], records)));
  }
}
