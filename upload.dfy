/**
 * upload_document in backend/server.py: the file type is chosen from the file name, the
 * bytes go to the matching chunk builder, and a file that yields no chunk is refused.
 */
module Upload {
  import opened Wrappers
  import opened Text
  import opened Chunks

  datatype FileKind = Excel | Json

  datatype UploadError = NoFileProvided | UnsupportedFileType | CouldNotProcess

  /** What was read from the file, as the matching chunk builder returned it. */
  datatype Content = Sheet(rows: seq<ExcelRow>) | Items(items: seq<JsonItem>)

  /** The part of the stored document that the upload computes. */
  datatype Processed = Processed(kind: FileKind, chunks: seq<string>, content: Content)

  /** filename.lower().split('.')[-1] */
  function Extension(filename: string): (ext: string)
    ensures '.' !in ext
  {
    var parts := Split(ToLower(filename), ".");
    ContainsChar(parts[|parts| - 1], '.');
    parts[|parts| - 1]
  }

  /** The dispatch on the extension: xlsx and xls are Excel, json is JSON, anything else is refused. */
  function FileKindOf(filename: string): Option<FileKind>
  {
    var ext := Extension(filename);
    if ext == "xlsx" || ext == "xls" then Some(Excel)
    else if ext == "json" then Some(Json)
    else None
  }

  /** The extension is the lower-cased text after the last dot, whatever comes before it. */
  lemma ExtensionAfterLastDot(stem: string, ext: string)
    requires '.' !in ext
    ensures Extension(stem + "." + ext) == ToLower(ext)
  {
    ToLowerAppend(stem + ".", ext);
    ToLowerAppend(stem, ".");
    assert ToLower(".") == ".";
    var lowered := ToLower(stem) + ['.'] + ToLower(ext);
    assert ToLower(stem + "." + ext) == lowered;
    ToLowerKeepsAbsent(ext, '.');
    SplitLastPiece(ToLower(stem), ToLower(ext), '.');
  }

  /** A name without a dot is its own extension: a file named "json" is taken for JSON. */
  lemma ExtensionWithoutDot(filename: string)
    requires '.' !in filename
    ensures Extension(filename) == ToLower(filename)
  {
    ToLowerKeepsAbsent(filename, '.');
    ContainsChar(ToLower(filename), '.');
  }

  /**
   * upload_document up to the embedding call. `sheet` and `json` are what pandas and
   * json.loads make of the bytes (None when they fail); only the one the extension picks is used.
   * A missing file name is the empty string.
   */
  function UploadResult(filename: string, sheet: Option<seq<ExcelRow>>, json: Option<JsonDoc>): Result<Processed, UploadError>
  {
    if filename == "" then Err(NoFileProvided)
    else
      match FileKindOf(filename)
      case None => Err(UnsupportedFileType)
      case Some(Excel) =>
        var rows := if sheet.Some? then sheet.value else [];
        if |rows| == 0 then Err(CouldNotProcess) else Ok(Processed(Excel, ExcelChunks(rows), Sheet(rows)))
      case Some(Json) =>
        var (chunks, data) := if json.Some? then JsonChunks(json.value) else ([], []);
        if |chunks| == 0 then Err(CouldNotProcess) else Ok(Processed(Json, chunks, Items(data)))
  }

  /**
   * The refusals of upload_document and when each happens, and what an accepted file yields:
   * the kind its extension names, and at least one chunk, one per row or item.
   */
  lemma UploadFacts(filename: string, sheet: Option<seq<ExcelRow>>, json: Option<JsonDoc>)
    ensures var r := UploadResult(filename, sheet, json);
            && (r == Err(NoFileProvided) <==> filename == "")
            && (r == Err(UnsupportedFileType) <==> filename != "" && FileKindOf(filename).None?)
            && (r == Err(CouldNotProcess) <==>
                  filename != "" &&
                  ((FileKindOf(filename) == Some(Excel) && (sheet.None? || |sheet.value| == 0)) ||
                   (FileKindOf(filename) == Some(Json) && (json.None? || (json.value.Array? && |json.value.items| == 0)))))
            && (r.Ok? ==>
                  && Some(r.value.kind) == FileKindOf(filename)
                  && |r.value.chunks| > 0
                  && (r.value.kind == Excel ==> r.value.content == Sheet(sheet.value) && |r.value.chunks| == |sheet.value|)
                  && (r.value.kind == Json ==> r.value.content.Items? && |r.value.chunks| == |r.value.content.items|))
  {
  }

  /** upload_document from the file-name check to the chunk check. */
  method UploadDocument(filename: string, sheet: Option<seq<ExcelRow>>, json: Option<JsonDoc>)
    returns (r: Result<Processed, UploadError>)
    ensures r == UploadResult(filename, sheet, json)
  {
    if filename == "" {
      return Err(NoFileProvided);
    }
    var extension := Extension(filename);
    var chunks: seq<string>;
    var content: Content;
    var kind: FileKind;
    if extension == "xlsx" || extension == "xls" {
      var data;
      chunks, data := ProcessExcel(sheet);
      content, kind := Sheet(data), Excel;
    } else if extension == "json" {
      var data;
      chunks, data := ProcessJson(json);
      content, kind := Items(data), Json;
    } else {
      return Err(UnsupportedFileType);
    }
    if |chunks| == 0 {
      return Err(CouldNotProcess);
    }
    return Ok(Processed(kind, chunks, content));
  }
}
