/**
 * The chunk serialiser of backend/server.py: process_json_file and process_excel_file turn
 * every record into one text chunk "k1: v1 | k2: v2 | ...", the unit that gets embedded.
 */
module Chunks {
  import opened Wrappers
  import opened Text

  /**
   * A record as the backend iterates it: the (key, value) pairs of a dict in insertion order.
   * Each value is already the text that the f-string "{v}" gives for it.
   */
  type Record = seq<(string, string)>

  const PairSep := " | "

  /** f"{k}: {v}" */
  function FormatPair(key: string, value: string): string
  {
    key + ": " + value
  }

  function FormattedPairs(r: Record): seq<string>
  {
    seq(|r|, i requires 0 <= i < |r| => FormatPair(r[i].0, r[i].1))
  }

  /** " | ".join([f"{k}: {v}" for k, v in r.items()]) */
  function SerializeRecord(r: Record): string
  {
    Join(PairSep, FormattedPairs(r))
  }

  function TotalLength(parts: seq<string>): nat
  {
    if |parts| == 0 then 0 else |parts[0]| + TotalLength(parts[1..])
  }

  lemma {:induction false} JoinLength(sep: string, parts: seq<string>)
    requires |parts| > 0
    ensures |Join(sep, parts)| == TotalLength(parts) + |sep| * (|parts| - 1)
    decreases |parts|
  {
    if |parts| > 1 {
      JoinLength(sep, parts[1..]);
    }
  }

  /** A record of n entries is its n formatted pairs plus n - 1 separators, nothing more. */
  lemma SerializeLength(r: Record)
    requires |r| > 0
    ensures |SerializeRecord(r)| == TotalLength(FormattedPairs(r)) + |PairSep| * (|r| - 1)
  {
    JoinLength(PairSep, FormattedPairs(r));
  }

  // ----- JSON -----

  /** An element of a parsed JSON document: an object, or anything else, kept as its str(). */
  datatype JsonItem = Object(entries: Record) | Scalar(text: string)

  /** What json.loads produced: a top-level list or a single value. */
  datatype JsonDoc = Array(items: seq<JsonItem>) | Single(item: JsonItem)

  function ItemChunk(item: JsonItem): string
  {
    match item
    case Object(entries) => SerializeRecord(entries)
    case Scalar(text) => text
  }

  /** The chunks and data process_json_file returns for a parsed document. */
  function JsonChunks(doc: JsonDoc): (r: (seq<string>, seq<JsonItem>))
    ensures doc.Array? ==> r.1 == doc.items && |r.0| == |r.1|
    ensures doc.Array? ==> forall i :: 0 <= i < |r.1| ==> r.0[i] == ItemChunk(r.1[i])
    ensures doc.Single? ==> r == ([ItemChunk(doc.item)], [doc.item])
  {
    match doc
    case Array(items) => (seq(|items|, i requires 0 <= i < |items| => ItemChunk(items[i])), items)
    case Single(item) => ([ItemChunk(item)], [item])
  }

  /**
   * process_json_file. `parsed` is None when decoding or parsing the bytes failed,
   * which the source turns into ([], []).
   */
  method ProcessJson(parsed: Option<JsonDoc>) returns (chunks: seq<string>, data: seq<JsonItem>)
    ensures parsed.None? ==> chunks == [] && data == []
    ensures parsed.Some? ==> (chunks, data) == JsonChunks(parsed.value)
  {
    if parsed.None? {
      return [], [];
    }
    match parsed.value
    case Array(items) =>
      chunks := [];
      for i := 0 to |items|
        invariant |chunks| == i
        invariant forall j :: 0 <= j < i ==> chunks[j] == ItemChunk(items[j])
      {
        match items[i]
        case Object(entries) =>
          chunks := chunks + [SerializeRecord(entries)];
        case Scalar(text) =>
          chunks := chunks + [text];
      }
      data := items;
      var expected := JsonChunks(parsed.value);
      assert expected.0 == chunks;
    case Single(item) =>
      chunks, data := [ItemChunk(item)], [item];
  }

  // ----- Excel -----

  /** A spreadsheet cell: pd.notna(v) is false exactly for Missing (NaN, None, NaT). */
  datatype Cell = Missing | Present(text: string)

  /** One row of df.to_dict('records'): (column name, cell) in column order. */
  type ExcelRow = seq<(string, Cell)>

  /** The entries of a row that the list comprehension keeps: the present cells. */
  function PresentEntries(row: ExcelRow): (r: Record)
    ensures |r| <= |row|
    decreases |row|
  {
    if |row| == 0 then []
    else
      var rest := PresentEntries(row[..|row| - 1]);
      match row[|row| - 1].1
      case Missing => rest
      case Present(text) => rest + [(row[|row| - 1].0, text)]
  }

  function RowChunk(row: ExcelRow): string
  {
    SerializeRecord(PresentEntries(row))
  }

  /** Present-cell selection distributes over concatenation, so column order is kept. */
  lemma {:induction false} PresentEntriesAppend(a: ExcelRow, b: ExcelRow)
    ensures PresentEntries(a + b) == PresentEntries(a) + PresentEntries(b)
    decreases |b|
  {
    if |b| > 0 {
      assert (a + b)[..|a + b| - 1] == a + b[..|b| - 1];
      PresentEntriesAppend(a, b[..|b| - 1]);
    } else {
      assert a + b == a;
    }
  }

  /** A missing cell contributes neither its column name nor a separator to the chunk. */
  lemma MissingCellInvisible(a: ExcelRow, column: string, b: ExcelRow)
    ensures RowChunk(a + [(column, Missing)] + b) == RowChunk(a + b)
  {
    PresentEntriesAppend(a + [(column, Missing)], b);
    PresentEntriesAppend(a, [(column, Missing)]);
    PresentEntriesAppend(a, b);
    assert PresentEntries([(column, Missing)]) == [];
  }

  /** A present cell contributes exactly its own entry, at its column's place. */
  lemma PresentCellEntry(a: ExcelRow, column: string, text: string, b: ExcelRow)
    ensures PresentEntries(a + [(column, Present(text))] + b)
         == PresentEntries(a) + [(column, text)] + PresentEntries(b)
  {
    PresentEntriesAppend(a + [(column, Present(text))], b);
    PresentEntriesAppend(a, [(column, Present(text))]);
    assert PresentEntries([(column, Present(text))]) == [(column, text)];
  }

  /** A row without missing cells keeps every (column, text) entry in column order, and its chunk serialises exactly those. */
  lemma {:induction false} FullRowIsRecord(row: ExcelRow)
    requires forall j :: 0 <= j < |row| ==> row[j].1.Present?
    ensures PresentEntries(row) == seq(|row|, j requires 0 <= j < |row| => (row[j].0, row[j].1.text))
    ensures RowChunk(row) == SerializeRecord(seq(|row|, j requires 0 <= j < |row| => (row[j].0, row[j].1.text)))
    decreases |row|
  {
    if |row| > 0 {
      FullRowIsRecord(row[..|row| - 1]);
    }
  }

  /** The chunks of an Excel sheet as process_excel_file returns them: one per row, in order. */
  function ExcelChunks(rows: seq<ExcelRow>): (cs: seq<string>)
    ensures |cs| == |rows|
    ensures forall i :: 0 <= i < |rows| ==> cs[i] == RowChunk(rows[i])
  {
    seq(|rows|, i requires 0 <= i < |rows| => RowChunk(rows[i]))
  }

  /**
   * process_excel_file. `sheet` is None when pandas could not read the bytes,
   * which the source turns into ([], []).
   */
  method ProcessExcel(sheet: Option<seq<ExcelRow>>) returns (chunks: seq<string>, data: seq<ExcelRow>)
    ensures sheet.None? ==> chunks == [] && data == []
    ensures sheet.Some? ==> data == sheet.value && chunks == ExcelChunks(sheet.value)
  {
    if sheet.None? {
      return [], [];
    }
    data := sheet.value;
    chunks := [];
    for i := 0 to |data|
      invariant |chunks| == i
      invariant forall j :: 0 <= j < i ==> chunks[j] == RowChunk(data[j])
    {
      chunks := chunks + [RowChunk(data[i])];
    }
  }
}
