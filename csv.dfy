/**
 * CSV ingestion of the catalog (`parseCsvData`): the header is resolved to the
 * positions of the four required columns, and every later line is scanned by a
 * two-state quote machine, padded, and turned into a record.
 */
module Csv {
  import opened Text

  /** One catalog entry. */
  datatype Record = Record(title: string, category: string, description: string, url: string)

  /** Header positions of the four required columns. */
  datatype Columns = Columns(title: nat, category: nat, description: nat, url: nat)

  datatype Option<T> = None | Some(value: T)

  /** The exception `parseCsvData` throws when a required header is missing. */
  datatype CsvError = MissingRequiredHeaders

  datatype Result<T> = Success(value: T) | Failure(error: CsvError)

  /** The input is trimmed as a whole and split on newlines; the first line is the header. */
  function Lines(csvText: string): seq<string>
  {
    Split(Trim(csvText), '\n')
  }

  /** The header line split naively on commas, each name trimmed and lower-cased. */
  function HeaderNames(headerLine: string): seq<string>
  {
    var raw := Split(headerLine, ',');
    seq(|raw|, k requires 0 <= k < |raw| => Lower(Trim(raw[k])))
  }

  /** `i` is the first position of `x` in `xs`. */
  predicate IsFirstIndex(xs: seq<string>, x: string, i: int)
  {
    0 <= i < |xs| && xs[i] == x && x !in xs[..i]
  }

  /** `Array.prototype.indexOf`: the first position of `x`, or -1 when it is absent. */
  function IndexOf(xs: seq<string>, x: string): (r: int)
    ensures r == -1 <==> x !in xs
    ensures r != -1 ==> IsFirstIndex(xs, x, r)
  {
    if xs == [] then -1
    else if xs[0] == x then 0
    else
      var k := IndexOf(xs[1..], x);
      assert xs == [xs[0]] + xs[1..];
      if k == -1 then -1
      else
        assert xs[..k + 1] == [xs[0]] + xs[1..][..k];
        k + 1
  }

  /**
   * The column lookup of the header: it fails exactly when one of the four names
   * is missing, and otherwise yields the first position of each name.
   */
  function ResolveHeader(headerLine: string): (r: Option<Columns>)
    ensures var names := HeaderNames(headerLine);
      r.Some? <==> "title" in names && "category" in names && "description" in names && "url" in names
    ensures var names := HeaderNames(headerLine);
      r.Some? ==>
        IsFirstIndex(names, "title", r.value.title) &&
        IsFirstIndex(names, "category", r.value.category) &&
        IsFirstIndex(names, "description", r.value.description) &&
        IsFirstIndex(names, "url", r.value.url)
  {
    var headers := HeaderNames(headerLine);
    var titleIndex := IndexOf(headers, "title");
    var categoryIndex := IndexOf(headers, "category");
    var descriptionIndex := IndexOf(headers, "description");
    var urlIndex := IndexOf(headers, "url");
    if titleIndex == -1 || categoryIndex == -1 || descriptionIndex == -1 || urlIndex == -1 then None
    else Some(Columns(titleIndex, categoryIndex, descriptionIndex, urlIndex))
  }

  /** `Math.max` of the four column positions. */
  function MaxIndex(cols: Columns): nat
  {
    var a := if cols.title < cols.category then cols.category else cols.title;
    var b := if cols.description < cols.url then cols.url else cols.description;
    if a < b then b else a
  }

  /**
   * The row scanner as a reference definition: `rest` is the unread part of the
   * line, `inQuotes` the quote state and `current` the field read so far. The
   * fields come out untrimmed; the last one is emitted whatever the state.
   */
  function RawFields(rest: string, inQuotes: bool, current: string): (fields: seq<string>)
    ensures |fields| >= 1
    decreases |rest|
  {
    if rest == [] then [current]
    else if rest[0] == '"' then
      if inQuotes && |rest| > 1 && rest[1] == '"' then RawFields(rest[2..], inQuotes, current + ['"'])
      else RawFields(rest[1..], !inQuotes, current)
    else if rest[0] == ',' && !inQuotes then [current] + RawFields(rest[1..], false, "")
    else RawFields(rest[1..], inQuotes, current + [rest[0]])
  }

  function TrimAll(fs: seq<string>): seq<string>
  {
    seq(|fs|, k requires 0 <= k < |fs| => Trim(fs[k]))
  }

  lemma TrimAllAppend(a: seq<string>, b: seq<string>)
    ensures TrimAll(a + b) == TrimAll(a) + TrimAll(b)
  {
  }

  /** The fields of one data line, each trimmed. */
  function ScanFields(line: string): seq<string>
  {
    TrimAll(RawFields(line, false, ""))
  }

  /** A scanned row is never empty, and no field has whitespace at either end. */
  lemma ScanFieldsTrimmed(line: string)
    ensures var values := ScanFields(line);
      |values| >= 1 && forall k :: 0 <= k < |values| ==> IsTrimmed(values[k])
  {
    var raw := RawFields(line, false, "");
    forall k | 0 <= k < |raw|
      ensures IsTrimmed(Trim(raw[k]))
    {
      TrimProperties(raw[k]);
    }
  }

  /** The character loop of `parseCsvData` for one data line. */
  method ScanRow(line: string) returns (values: seq<string>)
    ensures values == ScanFields(line)
  {
    values := [];
    var currentVal := "";
    var inQuotes := false;
    var i := 0;
    while i < |line|
      invariant 0 <= i <= |line|
      invariant values + TrimAll(RawFields(line[i..], inQuotes, currentVal)) == ScanFields(line)
      decreases |line| - i
    {
      var c := line[i];
      ghost var rest := line[i..];
      assert rest[0] == c && rest[1..] == line[i + 1..];
      if c == '"' {
        if inQuotes && i + 1 < |line| && line[i + 1] == '"' {
          assert rest[2..] == line[i + 2..];
          currentVal := currentVal + ['"'];
          i := i + 1;
        } else {
          inQuotes := !inQuotes;
        }
      } else if c == ',' && !inQuotes {
        TrimAllAppend([currentVal], RawFields(line[i + 1..], false, ""));
        values := values + [Trim(currentVal)];
        currentVal := "";
      } else {
        currentVal := currentVal + [c];
      }
      i := i + 1;
    }
    values := values + [Trim(currentVal)];
  }

  /**
   * The padding of a scanned row: the scanned fields stay an unchanged prefix and
   * empty strings are added until position `maxIndex` exists.
   */
  function Padded(values: seq<string>, maxIndex: nat): seq<string>
  {
    if |values| > maxIndex then values else values + seq(maxIndex + 1 - |values|, _ => "")
  }

  /** Padding keeps the row, appends only empty strings, and stops just past `maxIndex`. */
  lemma PaddedProperties(values: seq<string>, maxIndex: nat)
    ensures var r := Padded(values, maxIndex);
      && |r| == (if |values| > maxIndex then |values| else maxIndex + 1)
      && r[..|values|] == values
      && forall k :: |values| <= k < |r| ==> r[k] == ""
  {
  }

  /** The `while` loop that pushes `''` onto a short row. */
  method PadValues(values: seq<string>, maxIndex: nat) returns (r: seq<string>)
    ensures r == Padded(values, maxIndex)
  {
    r := values;
    while |r| <= maxIndex
      invariant |values| <= |r| <= if |values| > maxIndex then |values| else maxIndex + 1
      invariant r[..|values|] == values
      invariant forall k :: |values| <= k < |r| ==> r[k] == ""
      decreases maxIndex + 1 - |r|
    {
      r := r + [""];
    }
    PaddedProperties(values, maxIndex);
    var p := Padded(values, maxIndex);
    assert |r| == |p|;
    forall k | 0 <= k < |r|
      ensures r[k] == p[k]
    {
      if k < |values| {
        assert r[k] == r[..|values|][k] && p[k] == p[..|values|][k];
      }
    }
  }

  /** Field `k` of a scanned row, or the empty string past its end. */
  function FieldAt(values: seq<string>, k: nat): string
  {
    if k < |values| then values[k] else ""
  }

  /** The record built from one data line: the padded row read at the four header positions. */
  function ToRecord(line: string, cols: Columns): Record
  {
    var values := Padded(ScanFields(line), MaxIndex(cols));
    Record(values[cols.title], values[cols.category], values[cols.description], values[cols.url])
  }

  /**
   * Each field of a record is the scanned value at the header position of its
   * column, or empty when the row is too short to reach it.
   */
  lemma RecordFields(line: string, cols: Columns)
    ensures var scanned := ScanFields(line);
      ToRecord(line, cols) ==
        Record(FieldAt(scanned, cols.title), FieldAt(scanned, cols.category),
               FieldAt(scanned, cols.description), FieldAt(scanned, cols.url))
  {
    var scanned := ScanFields(line);
    var values := Padded(scanned, MaxIndex(cols));
    PaddedProperties(scanned, MaxIndex(cols));
    assert forall k :: 0 <= k < |scanned| ==> values[k] == values[..|scanned|][k];
  }

  /** The `map` over the data lines. */
  function RowsToRecords(rows: seq<string>, cols: Columns): seq<Record>
  {
    seq(|rows|, k requires 0 <= k < |rows| => ToRecord(rows[k], cols))
  }

  /** What `parseCsvData` computes from its input: the records, or the header error. */
  function Parse(csvText: string): Result<seq<Record>>
  {
    var lines := Lines(csvText);
    match ResolveHeader(lines[0])
    case None => Failure(MissingRequiredHeaders)
    case Some(cols) => Success(RowsToRecords(lines[1..], cols))
  }

  // ---------------------------------------------------------------------------
  // Properties of parsing

  /** `Parse` in terms of the header lookup of the first line. */
  lemma ParseByHeader(csvText: string)
    ensures var header := ResolveHeader(Lines(csvText)[0]);
      Parse(csvText) ==
        if header.None? then Failure(MissingRequiredHeaders)
        else Success(RowsToRecords(Lines(csvText)[1..], header.value))
  {
  }

  /** Parsing fails exactly when the header lacks one of the four required names. */
  lemma ParseFailsIffHeaderIncomplete(csvText: string)
    ensures var names := HeaderNames(Lines(csvText)[0]);
      Parse(csvText).Failure? <==>
        !("title" in names && "category" in names && "description" in names && "url" in names)
  {
  }

  /**
   * On success there is one record per newline of the trimmed input (one per
   * line after the header), in line order.
   */
  lemma ParseRecordsInLineOrder(csvText: string)
    requires Parse(csvText).Success?
    ensures var records := Parse(csvText).value;
      |records| == |Lines(csvText)| - 1 == Count(Trim(csvText), '\n') &&
      forall k :: 0 <= k < |records| ==>
        records[k] == ToRecord(Lines(csvText)[k + 1], ResolveHeader(Lines(csvText)[0]).value)
  {
    SplitCount(Trim(csvText), '\n');
  }

  /** The empty input fails: its only header name is the empty string. */
  lemma EmptyInputFails()
    ensures Parse("") == Failure(MissingRequiredHeaders)
  {
    assert Trim("") == "";
    assert Lines("") == [""];
    assert HeaderNames("") == [""];
  }

  /** A header line alone gives zero records. */
  lemma HeaderOnlyGivesNoRecords(csvText: string)
    requires '\n' !in Trim(csvText)
    requires ResolveHeader(Trim(csvText)).Some?
    ensures Parse(csvText) == Success([])
  {
    var t := Trim(csvText);
    SplitJoin([t], '\n');
    assert Join([t], '\n') == t;
    var lines := Lines(csvText);
    assert lines == [t];
    var cols := ResolveHeader(lines[0]).value;
    assert RowsToRecords(lines[1..], cols) == [];
  }

  /** A data line that is entirely empty still gives a record, with every field empty. */
  lemma EmptyLineGivesEmptyRecord(cols: Columns)
    ensures ToRecord("", cols) == Record("", "", "", "")
  {
    assert Trim("") == "";
  }

  // ---------------------------------------------------------------------------
  // Properties of the row scanner

  /** Characters that neither open nor close quotes, nor (outside quotes) end a field. */
  predicate IsPlainRun(p: string, inQuotes: bool)
  {
    forall k :: 0 <= k < |p| ==> p[k] != '"' && (inQuotes || p[k] != ',')
  }

  /** A run of plain characters is appended to the current field unchanged. */
  lemma {:induction false} PlainRun(p: string, rest: string, inQuotes: bool, current: string)
    requires IsPlainRun(p, inQuotes)
    ensures RawFields(p + rest, inQuotes, current) == RawFields(rest, inQuotes, current + p)
    decreases |p|
  {
    if p != [] {
      assert (p + rest)[1..] == p[1..] + rest;
      PlainRun(p[1..], rest, inQuotes, current + [p[0]]);
      assert current + [p[0]] + p[1..] == current + p;
    } else {
      assert p + rest == rest && current + p == current;
    }
  }

  /** Inside quotes a comma is kept literally. */
  lemma QuotedComma(rest: string, current: string)
    ensures RawFields("," + rest, true, current) == RawFields(rest, true, current + ",")
  {
    assert ("," + rest)[1..] == rest;
  }

  /** Inside quotes a doubled quote gives one literal quote and consumes both characters. */
  lemma DoubledQuote(rest: string, current: string)
    ensures RawFields("\"\"" + rest, true, current) == RawFields(rest, true, current + "\"")
  {
    assert ("\"\"" + rest)[2..] == rest;
  }

  /**
   * Inside quotes a quote that is not doubled closes the quotes and is not
   * kept, whatever follows: `"ab"cd` reads as `abcd`.
   */
  lemma LoneQuoteCloses(rest: string, current: string)
    requires rest == [] || rest[0] != '"'
    ensures RawFields("\"" + rest, true, current) == RawFields(rest, false, current)
  {
    assert ("\"" + rest)[1..] == rest;
  }

  /** Outside quotes a comma ends the current field and starts an empty one. */
  lemma UnquotedComma(rest: string, current: string)
    ensures RawFields("," + rest, false, current) == [current] + RawFields(rest, false, "")
  {
    assert ("," + rest)[1..] == rest;
  }

  /**
   * A quote in the middle of an unquoted field switches to the quoted state
   * instead of being kept: after `ab"` the field `ab` continues in quotes.
   */
  lemma QuoteInsideUnquotedField(p: string, rest: string, current: string)
    requires IsPlainRun(p, false)
    ensures RawFields(p + "\"" + rest, false, current) == RawFields(rest, true, current + p)
  {
    PlainRun(p, "\"" + rest, false, current);
    assert p + "\"" + rest == p + ("\"" + rest);
    assert ("\"" + rest)[1..] == rest;
  }

  /**
   * An unterminated quote is tolerated: the rest of the line, commas included,
   * becomes the last field.
   */
  lemma UnterminatedQuote(p: string)
    requires IsPlainRun(p, true)
    ensures ScanFields("\"" + p) == [Trim(p)]
  {
    assert ("\"" + p)[1..] == p;
    PlainRun(p, "", true, "");
    assert p + "" == p && "" + p == p;
    assert RawFields("\"" + p, false, "") == [p];
  }

  /** Doubles every quote of a field, as a writer of quoted CSV fields does. */
  function EscapeQuotes(f: string): string
  {
    if f == [] then [] else (if f[0] == '"' then "\"\"" else [f[0]]) + EscapeQuotes(f[1..])
  }

  /** A field written in quotes. */
  function Quote(f: string): string
  {
    "\"" + EscapeQuotes(f) + "\""
  }

  function QuoteAll(fs: seq<string>): seq<string>
  {
    seq(|fs|, k requires 0 <= k < |fs| => Quote(fs[k]))
  }

  /**
   * Reading the body of a quoted field: the escaped text and its closing quote
   * leave the raw text in the current field and the state unquoted.
   */
  lemma {:induction false} QuotedBody(f: string, rest: string, current: string)
    requires rest == [] || rest[0] == ','
    ensures RawFields(EscapeQuotes(f) + "\"" + rest, true, current) == RawFields(rest, false, current + f)
    decreases |f|
  {
    if f == [] {
      assert EscapeQuotes(f) + "\"" + rest == "\"" + rest;
      assert ("\"" + rest)[1..] == rest;
      assert current + f == current;
    } else {
      var tail := EscapeQuotes(f[1..]) + "\"" + rest;
      QuotedBody(f[1..], rest, current + [f[0]]);
      assert current + [f[0]] + f[1..] == current + f;
      if f[0] == '"' {
        assert EscapeQuotes(f) + "\"" + rest == "\"\"" + tail;
        DoubledQuote(tail, current);
      } else {
        assert EscapeQuotes(f) + "\"" + rest == [f[0]] + tail;
        assert ([f[0]] + tail)[1..] == tail;
      }
    }
  }

  /**
   * Round trip with quoting: any fields, each written in quotes with its quotes
   * doubled and joined with commas, scan back to exactly those fields.
   */
  lemma {:induction false} QuotedRoundTrip(fs: seq<string>)
    requires |fs| >= 1
    ensures RawFields(Join(QuoteAll(fs), ','), false, "") == fs
    decreases |fs|
  {
    var f := fs[0];
    var q := Join(QuoteAll(fs), ',');
    if |fs| == 1 {
      assert q == "\"" + (EscapeQuotes(f) + "\"" + "");
      assert q[1..] == EscapeQuotes(f) + "\"" + "";
      QuotedBody(f, "", "");
      assert "" + f == f;
    } else {
      var more := Join(QuoteAll(fs[1..]), ',');
      assert QuoteAll(fs)[1..] == QuoteAll(fs[1..]);
      assert q == "\"" + (EscapeQuotes(f) + "\"" + ("," + more));
      assert q[1..] == EscapeQuotes(f) + "\"" + ("," + more);
      QuotedBody(f, "," + more, "");
      assert "" + f == f;
      UnquotedComma(more, f);
      QuotedRoundTrip(fs[1..]);
      assert fs == [f] + fs[1..];
    }
  }

  /**
   * Round trip without quoting: fields free of quotes and commas, joined with
   * commas, scan back to exactly those fields.
   */
  lemma {:induction false} PlainRoundTrip(fs: seq<string>)
    requires |fs| >= 1
    requires forall k :: 0 <= k < |fs| ==> IsPlainRun(fs[k], false)
    ensures RawFields(Join(fs, ','), false, "") == fs
    decreases |fs|
  {
    var f := fs[0];
    if |fs| == 1 {
      PlainRun(f, "", false, "");
      assert f + "" == f && "" + f == f;
    } else {
      var more := Join(fs[1..], ',');
      assert Join(fs, ',') == f + ("," + more);
      PlainRun(f, "," + more, false, "");
      assert "" + f == f;
      UnquotedComma(more, f);
      PlainRoundTrip(fs[1..]);
      assert fs == [f] + fs[1..];
    }
  }

  /** What the round trips mean for a scanned row: the fields come back trimmed. */
  lemma QuotedRowScan(fs: seq<string>)
    requires |fs| >= 1
    ensures ScanFields(Join(QuoteAll(fs), ',')) == TrimAll(fs)
  {
    QuotedRoundTrip(fs);
  }

  lemma {:induction false} EscapeQuotesAppend(a: string, b: string)
    ensures EscapeQuotes(a + b) == EscapeQuotes(a) + EscapeQuotes(b)
    decreases |a|
  {
    if a != [] {
      assert (a + b)[0] == a[0];
      assert (a + b)[1..] == a[1..] + b;
      EscapeQuotesAppend(a[1..], b);
    } else {
      assert a + b == b;
    }
  }

  lemma {:induction false} EscapeQuotesPlain(a: string)
    requires '"' !in a
    ensures EscapeQuotes(a) == a
    decreases |a|
  {
    if a != [] {
      EscapeQuotesPlain(a[1..]);
      assert a == [a[0]] + a[1..];
    }
  }

  /** A single quoted field scans to its text, trimmed. */
  lemma QuotedField(f: string)
    ensures ScanFields(Quote(f)) == [Trim(f)]
  {
    assert Join(QuoteAll([f]), ',') == Quote(f);
    QuotedRoundTrip([f]);
  }

  /** A comma inside quotes, as in `"a,b"`, is part of the field. */
  lemma CommaInQuotes(a: string, b: string)
    requires '"' !in a && '"' !in b
    ensures ScanFields("\"" + a + "," + b + "\"") == [Trim(a + "," + b)]
  {
    var f := a + "," + b;
    EscapeQuotesPlain(f);
    assert Quote(f) == "\"" + a + "," + b + "\"";
    QuotedField(f);
  }

  /** A quoted field containing a comma: `"a,b"` reads as `a,b`. */
  lemma QuotedCommaExample(line: string)
    requires line == "\"a,b\""
    ensures ScanFields(line) == ["a,b"]
  {
    var a, b := "a", "b";
    var f := a + "," + b;
    assert f == "a,b";
    assert line == "\"" + a + "," + b + "\"";
    assert IsTrimmed(f) by {
      assert f[0] == 'a' && f[|f| - 1] == 'b';
    }
    TrimmedCommaInQuotes(a, b);
  }

  /** When the quoted text has no whitespace at its ends it is read back exactly. */
  lemma TrimmedCommaInQuotes(a: string, b: string)
    requires '"' !in a && '"' !in b && IsTrimmed(a + "," + b)
    ensures ScanFields("\"" + a + "," + b + "\"") == [a + "," + b]
  {
    CommaInQuotes(a, b);
    TrimOfTrimmed(a + "," + b);
  }

  /** A quote at the front is written doubled. */
  lemma EscapeQuoteFront(rest: string)
    ensures EscapeQuotes("\"" + rest) == "\"\"" + EscapeQuotes(rest)
  {
    var s := "\"" + rest;
    assert s[0] == '"' && s[1..] == rest;
  }

  /** Quote-free text at the front is kept as it is. */
  lemma EscapePlainFront(a: string, rest: string)
    requires '"' !in a
    ensures EscapeQuotes(a + rest) == a + EscapeQuotes(rest)
  {
    EscapeQuotesAppend(a, rest);
    EscapeQuotesPlain(a);
  }

  /** The quotes of `said"hi"` are doubled, the rest is kept. */
  lemma EscapeSaidHi(said: string, hi: string)
    requires '"' !in said && '"' !in hi
    ensures EscapeQuotes(said + "\"" + hi + "\"") == said + "\"\"" + hi + "\"\""
  {
    var q, qq := "\"", "\"\"";
    assert said + q + hi + q == said + (q + (hi + (q + "")));
    EscapePlainFront(said, q + (hi + (q + "")));
    EscapeQuoteFront(hi + (q + ""));
    EscapePlainFront(hi, q + "");
    EscapeQuoteFront("");
    assert said + (qq + (hi + (qq + ""))) == said + qq + hi + qq;
  }

  /**
   * Doubled quotes between quote-free text, as in `"He said ""hi"""`, read back
   * as single quotes.
   */
  lemma EmbeddedQuotes(said: string, hi: string)
    requires '"' !in said && '"' !in hi
    ensures ScanFields("\"" + said + "\"\"" + hi + "\"\"\"") == [Trim(said + "\"" + hi + "\"")]
  {
    var f := said + "\"" + hi + "\"";
    EscapeSaidHi(said, hi);
    assert Quote(f) == "\"" + said + "\"\"" + hi + "\"\"\"";
    QuotedField(f);
  }

  /** Escaped quotes: `"He said ""hi"""` reads as `He said "hi"`. */
  lemma EscapedQuoteExample(line: string)
    requires line == "\"He said \"\"hi\"\"\""
    ensures ScanFields(line) == ["He said \"hi\""]
  {
    var said, hi := "He said ", "hi";
    assert line == "\"" + said + "\"\"" + hi + "\"\"\"";
    EmbeddedQuotes(said, hi);
    var f := said + "\"" + hi + "\"";
    assert f == "He said \"hi\"";
    assert IsTrimmed(f) by {
      assert f[0] == 'H' && f[|f| - 1] == '"';
    }
    TrimOfTrimmed(f);
  }
}
