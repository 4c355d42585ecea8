/** Backend/Helpers/CustomFile.ts: a holder of one file URL, and the
    static `CSVToJSON` converter. CSV here is plain line and delimiter
    splitting: there is no quoting and no escaping. */
module CustomFile {
  import opened Wrappers
  import opened Text

  class CustomFile {
    var fileURL: string

    constructor (fileURL: string)
      ensures this.fileURL == fileURL
    {
      this.fileURL := fileURL;
    }

    method SetFileURL(newURL: string)
      modifies this
      ensures fileURL == newURL
    {
      fileURL := newURL;
    }

    method GetFileURL() returns (url: string)
      ensures url == fileURL
    {
      url := fileURL;
    }

    /** `fileURL.split(".")[1]`: the text between the first and the second
        '.', `undefined` when the URL holds no '.'. */
    method GetFileExtension() returns (ext: Option<string>)
      ensures ext.None? <==> '.' !in fileURL
      ensures ext.Some? ==> '.' !in ext.value && ext == SecondField(fileURL, '.')
    {
      var parts := Split(fileURL, '.');
      ext := if |parts| > 1 then Some(parts[1]) else None;
      SecondFieldPresent(fileURL, '.');
      SplitPieces(fileURL, '.');
    }
  }

  /** `setFileURL(u)` then `getFileURL()` returns `u`, and the extension is
      then read from `u`. */
  method SetThenGet(f: CustomFile, u: string) returns (url: string, ext: Option<string>)
    modifies f
    ensures f.fileURL == u && url == u
    ensures ext == SecondField(u, '.')
  {
    f.SetFileURL(u);
    url := f.GetFileURL();
    ext := f.GetFileExtension();
    SecondFieldPresent(u, '.');
  }

  /** "a.tar.gz" has the extension "tar": the segment after the first dot,
      not the last one. */
  lemma ExtensionIsFirstSegment()
    ensures SecondField("a.tar.gz", '.') == Some("tar")
  {
    assert "a.tar.gz" == "a" + ['.'] + "tar" + ".gz";
    SecondFieldOf("a", '.', "tar", ".gz");
  }

  // ---------------------------------------------------------------------
  // CSVToJSON
  // ---------------------------------------------------------------------

  /** One output object: header -> trimmed value, or `null` (None). */
  type Row = map<string, Option<string>>

  /** `lines[0].split(...)` on an empty `lines` array throws a TypeError. */
  datatype CsvError = NoHeaderLine

  predicate NonEmpty(line: string) {
    line != ""
  }

  /** `csv.split('\n').filter(Boolean)`: the non-empty pieces between
      newlines. */
  function Lines(csv: string): (lines: seq<string>)
    ensures |lines| <= |Split(csv, '\n')|
    ensures forall line :: line in lines <==> line in Split(csv, '\n') && line != ""
  {
    Filter(Split(csv, '\n'), NonEmpty)
  }

  /** `values[index] ? values[index].trim() : null`: a missing or empty
      value is `null`; a present one is trimmed (so "  " becomes ""). */
  function Cell(values: seq<string>, i: nat): (r: Option<string>)
    ensures r.None? <==> i >= |values| || values[i] == ""
    ensures r.Some? ==>
      && |r.value| <= |values[i]|
      && (r.value == "" <==> forall k :: 0 <= k < |values[i]| ==> IsJsSpace(values[i][k]))
      && (r.value == "" || (!IsJsSpace(r.value[0]) && !IsJsSpace(r.value[|r.value| - 1])))
  {
    if i < |values| && values[i] != "" then
      TrimBlank(values[i]);
      Some(Trim(values[i]))
    else None
  }

  /** Header `i` is not repeated before position `k`; for a repeated
      header the later assignment `obj[header] = ...` wins. */
  predicate LastBefore(headers: seq<string>, i: nat, k: nat)
    requires i < k <= |headers|
  {
    forall j :: i < j < k ==> headers[j] != headers[i]
  }

  /** `row` is the object the `reduce` builds from one line: its keys are
      the headers exactly (untrimmed; extra values are dropped), and each
      header holds the cell at its last position. */
  ghost predicate IsRowFor(headers: seq<string>, values: seq<string>, row: Row) {
    && (forall h :: h in row <==> h in headers)
    && forall i :: 0 <= i < |headers| && LastBefore(headers, i, |headers|) ==>
         headers[i] in row && row[headers[i]] == Cell(values, i)
  }

  /** The `reduce` that fills one accumulator object in place. */
  method BuildRow(headers: seq<string>, values: seq<string>) returns (obj: Row)
    ensures IsRowFor(headers, values, obj)
  {
    obj := map[];
    for k := 0 to |headers|
      invariant forall h :: h in obj <==> h in headers[..k]
      invariant forall i :: 0 <= i < k && LastBefore(headers, i, k) ==>
        headers[i] in obj && obj[headers[i]] == Cell(values, i)
    {
      ghost var before := obj;
      obj := obj[headers[k] := Cell(values, k)];
      assert headers[..k + 1] == headers[..k] + [headers[k]];
      forall i | 0 <= i < k + 1 && LastBefore(headers, i, k + 1)
        ensures headers[i] in obj && obj[headers[i]] == Cell(values, i)
      {
        if i < k {
          assert headers[k] != headers[i];
          assert LastBefore(headers, i, k);
        }
      }
    }
    assert headers[..|headers|] == headers;
  }

  /** Each of `json` is the object built from the line after the header
      line at its position. */
  ghost predicate RowsFor(headers: seq<string>, lines: seq<string>, delimiter: char, json: seq<Row>)
    requires |json| < |lines|
  {
    forall j :: 0 <= j < |json| ==> IsRowFor(headers, Split(lines[j + 1], delimiter), json[j])
  }

  lemma RowsForPush(headers: seq<string>, lines: seq<string>, delimiter: char, json: seq<Row>, row: Row)
    requires |json| + 1 < |lines| && RowsFor(headers, lines, delimiter, json)
    requires IsRowFor(headers, Split(lines[|json| + 1], delimiter), row)
    ensures RowsFor(headers, lines, delimiter, json + [row])
  {
    forall j | 0 <= j < |json| + 1
      ensures IsRowFor(headers, Split(lines[j + 1], delimiter), (json + [row])[j])
    {
      if j < |json| {
        assert (json + [row])[j] == json[j];
      }
    }
  }

  /** `CSVToJSON(csv, delimiter)`: the first non-empty line gives the
      headers, every later non-empty line one object, in input order. */
  method CsvToJson(csv: string, delimiter: char) returns (result: Result<seq<Row>, CsvError>)
    ensures result.Failure? <==> Lines(csv) == []
    ensures result.Success? ==>
      var lines := Lines(csv);
      && |result.value| == |lines| - 1
      && forall k :: 0 <= k < |result.value| ==>
           IsRowFor(Split(lines[0], delimiter), Split(lines[k + 1], delimiter), result.value[k])
  {
    var lines := Filter(Split(csv, '\n'), NonEmpty);
    if |lines| == 0 {
      return Failure(NoHeaderLine);
    }
    var headers := Split(lines[0], delimiter);
    var json: seq<Row> := [];
    for k := 1 to |lines|
      invariant |json| == k - 1
      invariant RowsFor(headers, lines, delimiter, json)
    {
      var row := BuildRow(headers, Split(lines[k], delimiter));
      RowsForPush(headers, lines, delimiter, json, row);
      json := json + [row];
    }
    return Success(json);
  }

  /** The lines that become objects contain no newline and are not empty;
      an input with blank lines between rows yields the same lines as one
      without them. */
  lemma LinesAreNonBlank(csv: string)
    ensures forall l :: l in Lines(csv) ==> l != "" && '\n' !in l
  {
    SplitPieces(csv, '\n');
  }

  /** Blank lines are dropped wherever they are: the lines of two blocks
      joined by a newline are the lines of each block, in order. */
  lemma LinesOfConcatenation(a: string, b: string)
    ensures Lines(a + "\n" + b) == Lines(a) + Lines(b)
  {
    var pa := Split(a, '\n');
    var pb := Split(b, '\n');
    JoinSplit(a, '\n');
    JoinSplit(b, '\n');
    SplitPieces(a, '\n');
    SplitPieces(b, '\n');
    SplitJoinConcat(pa, pb, '\n');
    FilterAppend(pa, pb, NonEmpty);
  }

  /** Splitting the join of two separator-free lists of pieces. */
  lemma {:induction false} SplitJoinConcat(pa: seq<string>, pb: seq<string>, d: char)
    requires |pa| >= 1 && |pb| >= 1
    requires forall p :: p in pa ==> d !in p
    requires forall p :: p in pb ==> d !in p
    ensures Split(Join(pa, [d]) + [d] + Join(pb, [d]), d) == pa + pb
  {
    JoinAppend(pa, pb, [d]);
    SplitJoin(pa + pb, d);
  }

  lemma {:induction false} JoinAppend(pa: seq<string>, pb: seq<string>, sep: string)
    requires |pa| >= 1 && |pb| >= 1
    ensures Join(pa + pb, sep) == Join(pa, sep) + sep + Join(pb, sep)
    decreases |pa|
  {
    if |pa| == 1 {
      assert (pa + pb)[1..] == pb;
    } else {
      JoinAppend(pa[1..], pb, sep);
      assert (pa + pb)[1..] == pa[1..] + pb;
    }
  }
}
