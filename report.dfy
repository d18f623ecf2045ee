/**
 * generate_report in backend/server.py: the context chunks of a RAG answer are parsed back
 * into table rows (the inverse of the chunk serialiser), and a one-row summary table stands
 * in when no chunk yields a row.
 */
module Report {
  import opened Wrappers
  import opened Seqs
  import opened Text
  import opened Chunks
  import opened Retrieval

  /** A Python dict of str to str, as its (key, value) pairs in insertion order. */
  type Row = Record

  function Keys(row: Row): (ks: seq<string>)
    ensures |ks| == |row|
    ensures forall i :: 0 <= i < |row| ==> ks[i] == row[i].0
  {
    if |row| == 0 then [] else [row[0].0] + Keys(row[1..])
  }

  lemma KeysSnoc(row: Row, e: (string, string))
    ensures Keys(row + [e]) == Keys(row) + [e.0]
  {
  }

  ghost predicate DistinctKeys(row: Row)
  {
    Distinct(Keys(row))
  }

  /** row.get(key) */
  function Get(row: Row, key: string): Option<string>
    decreases |row|
  {
    if |row| == 0 then None
    else if row[0].0 == key then Some(row[0].1)
    else Get(row[1..], key)
  }

  lemma GetCons(e: (string, string), rest: Row)
    ensures forall k :: Get([e] + rest, k) == if e.0 == k then Some(e.1) else Get(rest, k)
  {
    assert ([e] + rest)[1..] == rest;
  }

  lemma KeysCons(e: (string, string), rest: Row)
    ensures Keys([e] + rest) == [e.0] + Keys(rest)
  {
  }

  /**
   * row[key] = value: a key already present keeps its place and takes the new value,
   * a new key goes to the end.
   */
  function Put(row: Row, key: string, value: string): (r: Row)
    ensures Get(r, key) == Some(value)
    ensures forall k :: k != key ==> Get(r, k) == Get(row, k)
    ensures key in Keys(row) ==> Keys(r) == Keys(row)
    ensures key !in Keys(row) ==> r == row + [(key, value)]
    decreases |row|
  {
    if |row| == 0 then [(key, value)]
    else
      assert row == [row[0]] + row[1..];
      GetCons(row[0], row[1..]);
      KeysCons(row[0], row[1..]);
      if row[0].0 == key then
        GetCons((key, value), row[1..]);
        KeysCons((key, value), row[1..]);
        [(key, value)] + row[1..]
      else
        var rest := Put(row[1..], key, value);
        GetCons(row[0], rest);
        KeysCons(row[0], rest);
        [row[0]] + rest
  }

  // ----- the parser of one chunk -----

  /** One piece of chunk.split(" | "): split at the first ':' and strip both halves. */
  function ParsePair(pair: string): Option<(string, string)>
  {
    if ':' in pair then
      var halves := SplitAtFirst(pair, ':');
      Some((Strip(halves.0), Strip(halves.1)))
    else None
  }

  /** The row_data dict after the loop over the pieces: pieces without a ':' are skipped. */
  function ParsePairs(pairs: seq<string>): Row
    decreases |pairs|
  {
    if |pairs| == 0 then []
    else
      var row := ParsePairs(pairs[..|pairs| - 1]);
      match ParsePair(pairs[|pairs| - 1])
      case None => row
      case Some(entry) => Put(row, entry.0, entry.1)
  }

  /** The stripped keys of the pieces that have a ':', in the order of the pieces. */
  function ParsedKeys(pairs: seq<string>): seq<string>
    decreases |pairs|
  {
    if |pairs| == 0 then []
    else
      var init := ParsedKeys(pairs[..|pairs| - 1]);
      match ParsePair(pairs[|pairs| - 1])
      case None => init
      case Some(entry) => init + [entry.0]
  }

  /** The value of the last piece whose stripped key is `key`. */
  function LastValue(pairs: seq<string>, key: string): Option<string>
    decreases |pairs|
  {
    if |pairs| == 0 then None
    else
      match ParsePair(pairs[|pairs| - 1])
      case Some(entry) => if entry.0 == key then Some(entry.1) else LastValue(pairs[..|pairs| - 1], key)
      case None => LastValue(pairs[..|pairs| - 1], key)
  }

  /** The columns of the parsed row are the keys of the pieces, each once, in order of first appearance. */
  lemma {:induction false} ParsePairsKeys(pairs: seq<string>)
    ensures Keys(ParsePairs(pairs)) == Dedup(ParsedKeys(pairs))
    decreases |pairs|
  {
    if |pairs| > 0 {
      var init := pairs[..|pairs| - 1];
      ParsePairsKeys(init);
      match ParsePair(pairs[|pairs| - 1])
      case None =>
      case Some(entry) =>
        var row := ParsePairs(init);
        var ks := ParsedKeys(init);
        assert ParsePairs(pairs) == Put(row, entry.0, entry.1);
        assert ParsedKeys(pairs) == ks + [entry.0];
        DedupSnoc(ks, entry.0);
        if entry.0 !in Keys(row) {
          KeysSnoc(row, (entry.0, entry.1));
        }
    }
  }

  /** A later piece with the same key overwrites an earlier one: the row holds the last value given. */
  lemma {:induction false} ParsePairsLastWins(pairs: seq<string>, key: string)
    ensures Get(ParsePairs(pairs), key) == LastValue(pairs, key)
    decreases |pairs|
  {
    if |pairs| > 0 {
      ParsePairsLastWins(pairs[..|pairs| - 1], key);
    }
  }

  /** The parsed row names each column once and has no more entries than there were pieces. */
  lemma ParsePairsShape(pairs: seq<string>)
    ensures DistinctKeys(ParsePairs(pairs))
    ensures |ParsePairs(pairs)| <= |pairs|
  {
    ParsePairsKeys(pairs);
    DedupFacts(ParsedKeys(pairs));
    ParsedKeysLength(pairs);
    DedupLength(ParsedKeys(pairs));
  }

  lemma {:induction false} ParsedKeysLength(pairs: seq<string>)
    ensures |ParsedKeys(pairs)| <= |pairs|
    decreases |pairs|
  {
    if |pairs| > 0 {
      ParsedKeysLength(pairs[..|pairs| - 1]);
    }
  }

  /**
   * What one context chunk contributes to report_data: nothing unless it contains a '|'
   * and at least one of its pieces has a ':'.
   */
  function ParseChunk(chunk: string): Option<Row>
  {
    if Contains(chunk, "|") then
      var row := ParsePairs(Split(chunk, PairSep));
      if |row| == 0 then None else Some(row)
    else None
  }

  /** A piece yields an entry exactly when it has a ':'; so a chunk yields a row exactly when it has a '|' and one of its pieces a ':'. */
  lemma {:induction false} ParsePairsEmpty(pairs: seq<string>)
    ensures |ParsePairs(pairs)| == 0 <==> forall i :: 0 <= i < |pairs| ==> ':' !in pairs[i]
    decreases |pairs|
  {
    if |pairs| > 0 {
      var init := pairs[..|pairs| - 1];
      ParsePairsEmpty(init);
      assert forall i :: 0 <= i < |init| ==> init[i] == pairs[i];
    }
  }

  // ----- report_data -----

  /** report_data after the loop over the context chunks, before the summary fallback. */
  function ReportRows(context: seq<string>): seq<Row>
    decreases |context|
  {
    if |context| == 0 then []
    else
      var rows := ReportRows(context[..|context| - 1]);
      match ParseChunk(context[|context| - 1])
      case None => rows
      case Some(row) => rows + [row]
  }

  /** Every row of report_data is non-empty with distinct columns, and there is at most one per chunk. */
  lemma {:induction false} ReportRowsShape(context: seq<string>)
    ensures |ReportRows(context)| <= |context|
    ensures forall i :: 0 <= i < |ReportRows(context)| ==>
              |ReportRows(context)[i]| > 0 && DistinctKeys(ReportRows(context)[i])
    decreases |context|
  {
    if |context| > 0 {
      var c := context[|context| - 1];
      ReportRowsShape(context[..|context| - 1]);
      if Contains(c, "|") {
        ParsePairsShape(Split(c, PairSep));
      }
    }
  }

  /** A chunk without a '|' is skipped: report_data is the same with or without it. */
  lemma PipelessChunkSkipped(context: seq<string>, chunk: string)
    requires '|' !in chunk
    ensures ReportRows(context + [chunk]) == ReportRows(context)
  {
    ContainsChar(chunk, '|');
    assert (context + [chunk])[..|context|] == context;
  }

  lemma ParsePairsStep(pairs: seq<string>, i: nat)
    requires i < |pairs|
    ensures ParsePairs(pairs[..i + 1]) ==
              match ParsePair(pairs[i])
              case None => ParsePairs(pairs[..i])
              case Some(entry) => Put(ParsePairs(pairs[..i]), entry.0, entry.1)
  {
    assert pairs[..i + 1][..i] == pairs[..i];
  }

  /** The loop over the pieces of one chunk, filling row_data. */
  method FillRow(pairs: seq<string>) returns (rowData: Row)
    ensures rowData == ParsePairs(pairs)
  {
    rowData := [];
    var i := 0;
    while i < |pairs|
      invariant 0 <= i <= |pairs|
      invariant rowData == ParsePairs(pairs[..i])
    {
      var pair := pairs[i];
      ParsePairsStep(pairs, i);
      if ':' in pair {
        var halves := SplitAtFirst(pair, ':');
        rowData := Put(rowData, Strip(halves.0), Strip(halves.1));
      }
      i := i + 1;
    }
    assert pairs[..i] == pairs;
  }

  /** The loop of generate_report over rag_response.context_used. */
  method BuildReportData(context: seq<string>) returns (reportData: seq<Row>)
    ensures reportData == ReportRows(context)
  {
    reportData := [];
    var i := 0;
    while i < |context|
      invariant 0 <= i <= |context|
      invariant reportData == ReportRows(context[..i])
    {
      var chunk := context[i];
      assert context[..i + 1][..i] == context[..i];
      if Contains(chunk, "|") {
        var rowData := FillRow(Split(chunk, PairSep));
        if |rowData| > 0 {
          reportData := reportData + [rowData];
        }
      }
      i := i + 1;
    }
    assert context[..i] == context;
  }

  // ----- the round trip -----

  /**
   * The entries a reader would expect to survive the parser: the key has no ':', no " | "
   * and no surrounding whitespace; the value has no " | " and no surrounding whitespace.
   */
  predicate PlainEntry(key: string, value: string)
  {
    ':' !in key && !Contains(key, PairSep) && Trimmed(key) && !Contains(value, PairSep) && Trimmed(value)
  }

  /** An entry the parser gives back unchanged: plain, and the value neither begins nor ends with '|'. */
  predicate WellFormedEntry(key: string, value: string)
  {
    PlainEntry(key, value) && (|value| == 0 || (value[0] != '|' && value[|value| - 1] != '|'))
  }

  predicate WellFormedRecord(r: Record)
  {
    forall i :: 0 <= i < |r| ==> WellFormedEntry(r[i].0, r[i].1)
  }

  /** A formatted well-formed entry has no separator in it. */
  lemma FormatPairClean(key: string, value: string)
    requires WellFormedEntry(key, value)
    ensures !Contains(FormatPair(key, value), PairSep)
  {
    var p := FormatPair(key, value);
    var n := |key|;
    assert p[..n] == key;
    assert p[n] == ':' && p[n + 1] == ' ';
    assert p[n + 2..] == value;
    forall j | 0 <= j ensures !MatchAt(p, PairSep, j) {
      if j + 3 <= n {
        NoMatchWhenAbsent(key, PairSep, j);
        assert p[j..j + 3] == key[j..j + 3];
      } else if j <= n {
        assert j + 3 > |p| || p[j..j + 3][n - j] == ':';
      } else if j == n + 1 {
        assert j + 3 > |p| || p[j..j + 3][1] == value[0];
      } else {
        NoMatchWhenAbsent(value, PairSep, j - n - 2);
        assert j + 3 > |p| || p[j..j + 3] == value[j - n - 2..j - n + 1];
      }
    }
  }

  /** The separator written after a formatted well-formed entry is the first match of " | " from there. */
  lemma FormatPairEndsCleanly(key: string, value: string)
    requires WellFormedEntry(key, value)
    ensures EndsCleanly(FormatPair(key, value), PairSep)
  {
    var p := FormatPair(key, value);
    var s := p + PairSep;
    FormatPairClean(key, value);
    assert p[|p| - 1] != '|' by {
      if |value| == 0 {
        assert p[|p| - 1] == ' ';
      } else {
        assert p[|p| - 1] == value[|value| - 1];
      }
    }
    forall j | 0 <= j < |p| ensures !MatchAt(s, PairSep, j) {
      if j + 3 <= |p| {
        NoMatchWhenAbsent(p, PairSep, j);
        assert s[j..j + 3] == p[j..j + 3];
      } else if j == |p| - 2 {
        assert s[j..j + 3][1] == p[|p| - 1];
      } else {
        assert s[j..j + 3][1] == PairSep[0];
      }
    }
    assert MatchAt(s, PairSep, |p|) by {
      assert |s| == |p| + 3 && s[|p|..] == PairSep;
      assert s[|p|..|p| + 3] == s[|p|..];
    }
    FindLeast(s, PairSep, |p|);
  }

  /** A formatted well-formed entry parses back to itself. */
  lemma ParsePairOfFormat(key: string, value: string)
    requires WellFormedEntry(key, value)
    ensures ParsePair(FormatPair(key, value)) == Some((key, value))
  {
    var p := FormatPair(key, value);
    assert p == key + [':'] + (" " + value);
    SplitAtFirstUnique(key, " " + value, ':');
    StripIdentity(key);
    StripBlankThen(value);
  }

  lemma DistinctKeysInit(r: Record)
    requires |r| > 0 && DistinctKeys(r)
    ensures DistinctKeys(r[..|r| - 1]) && r[|r| - 1].0 !in Keys(r[..|r| - 1])
  {
    var init := r[..|r| - 1];
    assert forall i :: 0 <= i < |init| ==> Keys(init)[i] == Keys(r)[i];
    assert Keys(r)[|r| - 1] == r[|r| - 1].0;
  }

  /** The pieces of a formatted record with distinct keys rebuild the record, entry by entry. */
  lemma {:induction false} ParsePairsOfFormatted(r: Record)
    requires WellFormedRecord(r) && DistinctKeys(r)
    ensures ParsePairs(FormattedPairs(r)) == r
    decreases |r|
  {
    if |r| > 0 {
      var init := r[..|r| - 1];
      var last := r[|r| - 1];
      var piece := FormatPair(last.0, last.1);
      assert r == init + [last];
      DistinctKeysInit(r);
      assert WellFormedRecord(init) by {
        assert forall i :: 0 <= i < |init| ==> init[i] == r[i];
      }
      ParsePairsOfFormatted(init);
      ParsePairOfFormat(last.0, last.1);
      FormattedPairsSnoc(init, last);
      ParsePairsSnoc(FormattedPairs(init), piece, last);
      PutNew(init, last);
    }
  }

  lemma FormattedPairsSnoc(init: Record, last: (string, string))
    ensures FormattedPairs(init + [last]) == FormattedPairs(init) + [FormatPair(last.0, last.1)]
  {
    var r := init + [last];
    forall i | 0 <= i < |r|
      ensures FormattedPairs(r)[i] == (FormattedPairs(init) + [FormatPair(last.0, last.1)])[i]
    {
      if i < |init| {
        assert r[i] == init[i];
      }
    }
  }


  /** The serialised record splits back into its formatted entries. */
  lemma SplitSerialized(r: Record)
    requires |r| >= 1 && WellFormedRecord(r)
    ensures Split(SerializeRecord(r), PairSep) == FormattedPairs(r)
  {
    var parts := FormattedPairs(r);
    forall k | 0 <= k < |parts| - 1 ensures EndsCleanly(parts[k], PairSep) {
      FormatPairEndsCleanly(r[k].0, r[k].1);
    }
    FormatPairClean(r[|r| - 1].0, r[|r| - 1].1);
    SplitJoin(PairSep, parts);
  }

  /** Two or more entries put a separator, hence a '|', into the chunk. */
  lemma SerializedHasPipe(r: Record)
    requires |r| >= 2
    ensures Contains(SerializeRecord(r), "|")
  {
    var parts := FormattedPairs(r);
    var chunk := SerializeRecord(r);
    assert chunk == parts[0] + PairSep + Join(PairSep, parts[1..]);
    var i := |parts[0]| + 1;
    assert chunk[i..i + 1] == "|";
    ContainsAt(chunk, "|", i);
  }

  /**
   * The parser inverts the serialiser: a record of two or more well-formed entries with
   * distinct keys comes back from its own chunk unchanged.
   */
  lemma ParseSerializeRoundTrip(r: Record)
    requires |r| >= 2 && WellFormedRecord(r) && DistinctKeys(r)
    ensures ParseChunk(SerializeRecord(r)) == Some(r)
  {
    SerializedHasPipe(r);
    SplitSerialized(r);
    ParsePairsOfFormatted(r);
  }

  lemma PipeFreeHasNoSeparator(s: string)
    requires '|' !in s
    ensures !Contains(s, PairSep)
  {
    forall j | 0 <= j ensures !MatchAt(s, PairSep, j) {
      assert j + 3 > |s| || s[j..j + 3][1] == s[j + 1];
    }
    NoMatchFind(s, PairSep);
  }

  /** After a leading "| ", a text without '|' holds no further separator. */
  lemma PipeThenNoSeparator(tail: string)
    requires '|' !in tail
    ensures !Contains("| " + tail, PairSep)
  {
    var rest := "| " + tail;
    forall j | 0 <= j ensures !MatchAt(rest, PairSep, j) {
      assert j + 3 > |rest| || rest[j..j + 3][1] == rest[j + 1];
      if 1 <= j && j + 1 < |rest| {
        assert rest[j + 1] == tail[j - 1];
      }
    }
    NoMatchFind(rest, PairSep);
  }

  /** In a + ": | " + rest with no '|' in a, the first " | " is the one after the colon. */
  lemma SeparatorAfterColon(a: string, rest: string)
    requires '|' !in a
    ensures Find(a + ": | " + rest, PairSep) == Some(|a| + 1)
  {
    var chunk := a + ": | " + rest;
    var n := |a|;
    assert chunk[..n] == a && chunk[n] == ':' && chunk[n + 1] == ' ';
    forall j | 0 <= j < n + 1 ensures !MatchAt(chunk, PairSep, j) {
      assert j + 3 > |chunk| || chunk[j..j + 3][1] == chunk[j + 1];
      if j + 1 < n {
        assert chunk[j + 1] == a[j + 1];
      }
    }
    assert chunk[n + 1..n + 4] == PairSep;
    FindLeast(chunk, PairSep, n + 1);
  }

  /**
   * The chunk of [(a, "|"), (b, c)] is a + ": | | " + b + ": " + c, and its first " | " is
   * the one right after the colon, so split gives a + ":" and "| " + b + ": " + c.
   */
  lemma SplitPipeValue(a: string, b: string, c: string)
    requires '|' !in a && '|' !in b && '|' !in c
    ensures Split(FormatPair(a, "|") + PairSep + FormatPair(b, c), PairSep) == [a + ":", "| " + b + ": " + c]
  {
    var chunk := FormatPair(a, "|") + PairSep + FormatPair(b, c);
    var n := |a|;
    var tail := b + ": " + c;
    var rest := "| " + tail;
    assert chunk == a + ": | " + rest;
    SeparatorAfterColon(a, rest);
    assert chunk[..n + 1] == a + ":";
    assert chunk[n + 4..] == rest;
    assert '|' !in tail;
    PipeThenNoSeparator(tail);
    assert Split(rest, PairSep) == [rest];
    assert Split(chunk, PairSep) == [chunk[..n + 1]] + Split(chunk[n + 1 + |PairSep|..], PairSep);
    assert rest == "| " + b + ": " + c;
  }

  lemma ParseKeyOnly(a: string)
    requires ':' !in a && Trimmed(a)
    ensures ParsePair(a + ":") == Some((a, ""))
  {
    SplitAtFirstUnique(a, "", ':');
    assert a + [':'] + "" == a + ":";
    StripIdentity(a);
    StripIdentity("");
  }

  /** "| " + b as a key: no ':', no separator, and trimmed when b is. */
  lemma PipeKeyPlain(b: string, c: string)
    requires ':' !in b && '|' !in b && |b| > 0 && Trimmed(b)
    requires '|' !in c && Trimmed(c)
    ensures WellFormedEntry("| " + b, c)
  {
    var key := "| " + b;
    PipeThenNoSeparator(b);
    assert key[|key| - 1] == b[|b| - 1];
    PipeFreeHasNoSeparator(c);
    if |c| > 0 {
      assert c[0] in c && c[|c| - 1] in c;
    }
  }

  lemma SerializeTwo(r: Record)
    requires |r| == 2
    ensures SerializeRecord(r) == FormatPair(r[0].0, r[0].1) + PairSep + FormatPair(r[1].0, r[1].1)
  {
    var parts := FormattedPairs(r);
    assert parts[1..] == [FormatPair(r[1].0, r[1].1)];
    assert Join(PairSep, parts[1..]) == parts[1];
  }

  lemma ParsePipePieces(a: string, b: string, c: string)
    requires ':' !in a && '|' !in a && Trimmed(a)
    requires ':' !in b && '|' !in b && |b| > 0 && Trimmed(b)
    requires '|' !in c && Trimmed(c)
    ensures ParsePairs([a + ":", "| " + b + ": " + c]) == [(a, ""), ("| " + b, c)]
  {
    var key := "| " + b;
    ParseKeyOnly(a);
    PipeKeyPlain(b, c);
    ParsePairOfFormat(key, c);
    assert FormatPair(key, c) == "| " + b + ": " + c;
    assert key != a by {
      assert key[0] == '|';
      if |a| > 0 {
        assert a[0] in a;
      }
    }
    ParseTwoPieces(a + ":", FormatPair(key, c), (a, ""), (key, c));
  }

  lemma ParseOnePiece(p0: string, e0: (string, string))
    requires ParsePair(p0) == Some(e0)
    ensures ParsePairs([p0]) == [e0]
  {
    assert [p0][..0] == [];
  }

  lemma ParsePairsSnoc(pieces: seq<string>, p: string, e: (string, string))
    requires ParsePair(p) == Some(e)
    ensures ParsePairs(pieces + [p]) == Put(ParsePairs(pieces), e.0, e.1)
  {
    assert (pieces + [p])[..|pieces|] == pieces;
  }

  lemma PutNew(row: Row, e: (string, string))
    requires e.0 !in Keys(row)
    ensures Put(row, e.0, e.1) == row + [e]
  {
  }

  /** Two pieces with different keys give a row of two entries, in piece order. */
  lemma ParseTwoPieces(p0: string, p1: string, e0: (string, string), e1: (string, string))
    requires ParsePair(p0) == Some(e0) && ParsePair(p1) == Some(e1) && e0.0 != e1.0
    ensures ParsePairs([p0, p1]) == [e0, e1]
  {
    ParseOnePiece(p0, e0);
    ParsePairsSnoc([p0], p1, e1);
    assert [p0] + [p1] == [p0, p1];
    assert Keys([e0]) == [e0.0];
    PutNew([e0], e1);
  }

  /**
   * Without the condition on '|' at the ends of a value the round trip fails: the value "|"
   * makes a plain entry, yet the record [(a, "|"), (b, c)] comes back with that value lost
   * and the stray '|' moved into the next key.
   */
  lemma PipeValueBreaksRoundTrip(a: string, b: string, c: string)
    requires ':' !in a && '|' !in a && Trimmed(a)
    requires ':' !in b && '|' !in b && |b| > 0 && Trimmed(b)
    requires '|' !in c && Trimmed(c)
    ensures var r := [(a, "|"), (b, c)];
            && PlainEntry(a, "|") && PlainEntry(b, c)
            && ParseChunk(SerializeRecord(r)) == Some([(a, ""), ("| " + b, c)])
            && ParseChunk(SerializeRecord(r)) != Some(r)
  {
    var r := [(a, "|"), (b, c)];
    assert PlainEntry(a, "|") && PlainEntry(b, c) by {
      forall j | 0 <= j ensures !MatchAt("|", PairSep, j) {
      }
      NoMatchFind("|", PairSep);
      PipeFreeHasNoSeparator(a);
      PipeFreeHasNoSeparator(b);
      PipeFreeHasNoSeparator(c);
    }
    assert ParseChunk(SerializeRecord(r)) == Some([(a, ""), ("| " + b, c)]) by {
      SerializeTwo(r);
      SerializedHasPipe(r);
      SplitPipeValue(a, b, c);
      ParsePipePieces(a, b, c);
    }
  }

  /** In a + ": x | " + rest with no '|' in a, the first " | " is the one inside the value "x |". */
  lemma SeparatorInsideValue(a: string, rest: string)
    requires '|' !in a
    ensures Find(a + ": x | " + rest, PairSep) == Some(|a| + 3)
  {
    var chunk := a + ": x | " + rest;
    var n := |a|;
    assert chunk[..n] == a && chunk[n] == ':' && chunk[n + 1] == ' ' && chunk[n + 2] == 'x';
    forall j | 0 <= j < n + 3 ensures !MatchAt(chunk, PairSep, j) {
      assert j + 3 > |chunk| || chunk[j..j + 3][1] == chunk[j + 1];
      if j + 1 < n {
        assert chunk[j + 1] == a[j + 1];
      }
    }
    assert chunk[n + 3..n + 6] == PairSep;
    FindLeast(chunk, PairSep, n + 3);
  }

  /**
   * The chunk of [(a, "x |"), (b, c)] is a + ": x | | " + b + ": " + c, and its first " | "
   * starts at the space before the value's own '|', so split gives a + ": x" and "| " + b + ": " + c.
   */
  lemma SplitTrailingPipeValue(a: string, b: string, c: string)
    requires '|' !in a && '|' !in b && '|' !in c
    ensures Split(FormatPair(a, "x |") + PairSep + FormatPair(b, c), PairSep) == [FormatPair(a, "x"), "| " + b + ": " + c]
  {
    var chunk := FormatPair(a, "x |") + PairSep + FormatPair(b, c);
    var n := |a|;
    var tail := b + ": " + c;
    var rest := "| " + tail;
    assert chunk == a + ": x | " + rest;
    SeparatorInsideValue(a, rest);
    assert chunk[..n + 3] == FormatPair(a, "x");
    assert chunk[n + 6..] == rest;
    assert '|' !in tail;
    PipeThenNoSeparator(tail);
    assert Split(rest, PairSep) == [rest];
    assert Split(chunk, PairSep) == [chunk[..n + 3]] + Split(chunk[n + 3 + |PairSep|..], PairSep);
    assert rest == "| " + b + ": " + c;
  }

  /** A pipe-free key and value are well formed, so their formatted pair parses back. */
  lemma ParsePipeFreePair(key: string, value: string)
    requires ':' !in key && '|' !in key && Trimmed(key)
    requires '|' !in value && Trimmed(value)
    ensures ParsePair(FormatPair(key, value)) == Some((key, value))
  {
    PipeFreeHasNoSeparator(key);
    PipeFreeHasNoSeparator(value);
    if |value| > 0 {
      assert value[0] in value && value[|value| - 1] in value;
    }
    ParsePairOfFormat(key, value);
  }

  lemma ParseValueX(a: string)
    requires ':' !in a && '|' !in a && Trimmed(a)
    ensures ParsePair(FormatPair(a, "x")) == Some((a, "x"))
  {
    var x := "x";
    assert '|' !in x && Trimmed(x);
    ParsePipeFreePair(a, x);
  }

  lemma ParseTrailingPipePieces(a: string, b: string, c: string)
    requires ':' !in a && '|' !in a && Trimmed(a)
    requires ':' !in b && '|' !in b && |b| > 0 && Trimmed(b)
    requires '|' !in c && Trimmed(c)
    ensures ParsePairs([FormatPair(a, "x"), "| " + b + ": " + c]) == [(a, "x"), ("| " + b, c)]
  {
    var key := "| " + b;
    ParseValueX(a);
    PipeKeyPlain(b, c);
    ParsePairOfFormat(key, c);
    assert FormatPair(key, c) == "| " + b + ": " + c;
    assert key != a by {
      assert key[0] == '|';
      if |a| > 0 {
        assert a[0] in a;
      }
    }
    ParseTwoPieces(FormatPair(a, "x"), FormatPair(key, c), (a, "x"), (key, c));
  }

  /**
   * The end half of the condition on '|' is needed too: "x |" makes a plain entry, yet the
   * record [(a, "x |"), (b, c)] comes back with the value cut to "x" and " |" moved into the
   * next key, because the first " | " of the chunk begins inside the value.
   */
  lemma TrailingPipeBreaksRoundTrip(a: string, b: string, c: string)
    requires ':' !in a && '|' !in a && Trimmed(a)
    requires ':' !in b && '|' !in b && |b| > 0 && Trimmed(b)
    requires '|' !in c && Trimmed(c)
    ensures var r := [(a, "x |"), (b, c)];
            && PlainEntry(a, "x |") && PlainEntry(b, c)
            && ParseChunk(SerializeRecord(r)) == Some([(a, "x"), ("| " + b, c)])
            && ParseChunk(SerializeRecord(r)) != Some(r)
  {
    var r := [(a, "x |"), (b, c)];
    assert PlainEntry(a, "x |") && PlainEntry(b, c) by {
      forall j | 0 <= j ensures !MatchAt("x |", PairSep, j) {
        assert j + 3 > 3 || "x |"[j..j + 3][0] == 'x';
      }
      NoMatchFind("x |", PairSep);
      PipeFreeHasNoSeparator(a);
      PipeFreeHasNoSeparator(b);
      PipeFreeHasNoSeparator(c);
    }
    assert ParseChunk(SerializeRecord(r)) == Some([(a, "x"), ("| " + b, c)]) by {
      SerializeTwo(r);
      SerializedHasPipe(r);
      SplitTrailingPipeValue(a, b, c);
      ParseTrailingPipePieces(a, b, c);
    }
  }

  // ----- the report -----

  /** The one row of the summary table used when no context chunk parses into a row. */
  function SummaryRow(query: string, answer: string, language: string, generatedAt: string,
                      sources: seq<string>, documentCount: nat): Row
  {
    [("Query", query), ("Answer", answer), ("Language", language), ("Generated_At", generatedAt),
     ("Sources", Join(", ", sources)), ("Document_Count", NatToString(documentCount))]
  }

  lemma SummaryKeys(row: Row)
    requires |row| == 6 && row[0].0 == "Query" && row[1].0 == "Answer" && row[2].0 == "Language"
    requires row[3].0 == "Generated_At" && row[4].0 == "Sources" && row[5].0 == "Document_Count"
    ensures Keys(row) == ["Query", "Answer", "Language", "Generated_At", "Sources", "Document_Count"]
  {
    assert Keys(row[5..]) == ["Document_Count"];
    assert Keys(row[4..]) == ["Sources", "Document_Count"];
    assert Keys(row[3..]) == ["Generated_At", "Sources", "Document_Count"];
    assert Keys(row[2..]) == ["Language", "Generated_At", "Sources", "Document_Count"];
    assert Keys(row[1..]) == ["Answer", "Language", "Generated_At", "Sources", "Document_Count"];
  }

  /** The six summary columns are distinct: no two begin with the same letter. */
  lemma SummaryColumnsDistinct(query: string, answer: string, language: string, generatedAt: string,
                               sources: seq<string>, documentCount: nat)
    ensures DistinctKeys(SummaryRow(query, answer, language, generatedAt, sources, documentCount))
  {
    var row := SummaryRow(query, answer, language, generatedAt, sources, documentCount);
    SummaryKeys(row);
    var ks := Keys(row);
    var initials := "QALGSD";
    assert forall p :: 0 <= p < |ks| ==> |ks[p]| > 0 && ks[p][0] == initials[p];
    forall p, q | 0 <= p < q < |ks| ensures ks[p] != ks[q] {
      assert initials[p] != initials[q];
    }
  }

  /** What generate_report returns, without the encoded spreadsheet and its file name. */
  datatype ReportResponse = ReportResponse(rows: seq<Row>, query: string, answer: string, sources: seq<string>)

  /** The table written to the spreadsheet: the parsed rows, or the summary row alone when there are none. */
  function ReportTable(context: seq<string>, summary: Row): seq<Row>
  {
    var rows := ReportRows(context);
    if |rows| == 0 then [summary] else rows
  }

  /** A chunk adds a row to report_data exactly when it contains a '|' and one of its " | " pieces a ':'. */
  predicate YieldsRow(chunk: string)
  {
    '|' in chunk && exists j :: 0 <= j < |Split(chunk, PairSep)| && ':' in Split(chunk, PairSep)[j]
  }

  lemma ParseChunkSome(chunk: string)
    ensures ParseChunk(chunk).Some? <==> YieldsRow(chunk)
  {
    ContainsChar(chunk, '|');
    ParsePairsEmpty(Split(chunk, PairSep));
  }

  /** report_data stays empty exactly when no context chunk yields a row. */
  lemma {:induction false} ReportRowsEmpty(context: seq<string>)
    ensures ReportRows(context) == [] <==> forall i :: 0 <= i < |context| ==> !YieldsRow(context[i])
    decreases |context|
  {
    if |context| > 0 {
      var init := context[..|context| - 1];
      ReportRowsEmpty(init);
      ParseChunkSome(context[|context| - 1]);
      assert forall i :: 0 <= i < |init| ==> init[i] == context[i];
    }
  }

  /**
   * The summary fallback: the table is the summary row alone exactly when no context chunk
   * yields a row, and is report_data unchanged otherwise.
   */
  lemma ReportTableFallback(context: seq<string>, summary: Row)
    ensures ReportRows(context) == [] <==> forall i :: 0 <= i < |context| ==> !YieldsRow(context[i])
    ensures ReportRows(context) == [] ==> ReportTable(context, summary) == [summary]
    ensures ReportRows(context) != [] ==> ReportTable(context, summary) == ReportRows(context)
  {
    ReportRowsEmpty(context);
  }

  /**
   * The table has at least one row and no more rows than context chunks (or one); every
   * row is non-empty with distinct columns when the summary row is.
   */
  lemma ReportTableShape(context: seq<string>, summary: Row)
    requires |summary| > 0 && DistinctKeys(summary)
    ensures var t := ReportTable(context, summary);
            && 1 <= |t| <= (if |context| == 0 then 1 else |context|)
            && forall i :: 0 <= i < |t| ==> |t[i]| > 0 && DistinctKeys(t[i])
  {
    ReportRowsShape(context);
  }

  /**
   * generate_report: the RAG outcome first (its refusals are passed on), then the table built
   * from its context. `generatedAt` is the clock reading.
   */
  function ReportResult(query: string, language: string, docs: seq<Document>, generated: string,
                        generatedAt: string): Result<ReportResponse, QueryError>
    requires AllSearchable(docs)
  {
    match QueryResult(query, language, docs, generated)
    case Err(e) => Err(e)
    case Ok(rag) =>
      var summary := SummaryRow(query, rag.answer, language, generatedAt, rag.sources, |docs|);
      Ok(ReportResponse(ReportTable(rag.contextUsed, summary), query, rag.answer, rag.sources))
  }

  /**
   * generate_report fails exactly when rag_query does, with the same refusal; otherwise the
   * table has one to five non-empty rows with distinct columns, and the answer and sources
   * are rag_query's.
   */
  lemma ReportFacts(query: string, language: string, docs: seq<Document>, generated: string, generatedAt: string)
    requires AllSearchable(docs)
    ensures var r := ReportResult(query, language, docs, generated, generatedAt);
            var q := QueryResult(query, language, docs, generated);
            && (r.Err? <==> q.Err?)
            && (r.Err? ==> r.error == q.error)
            && (r.Ok? ==>
                  && 1 <= |r.value.rows| <= MaxContextChunks
                  && (forall i :: 0 <= i < |r.value.rows| ==> |r.value.rows[i]| > 0 && DistinctKeys(r.value.rows[i]))
                  && r.value.answer == q.value.answer && r.value.sources == q.value.sources)
  {
    var q := QueryResult(query, language, docs, generated);
    if q.Ok? {
      QueryContextFacts(query, language, docs, generated);
      var summary := SummaryRow(query, q.value.answer, language, generatedAt, q.value.sources, |docs|);
      SummaryColumnsDistinct(query, q.value.answer, language, generatedAt, q.value.sources, |docs|);
      ReportTableShape(q.value.contextUsed, summary);
    }
  }

  /** The chunks the serialiser makes of a list of records, one per record. */
  function SerializedChunks(records: seq<Record>): (cs: seq<string>)
    ensures |cs| == |records|
    ensures forall i :: 0 <= i < |records| ==> cs[i] == SerializeRecord(records[i])
  {
    seq(|records|, i requires 0 <= i < |records| => SerializeRecord(records[i]))
  }

  /** Context chunks that are serialised well-formed records of two or more entries come back as those records. */
  lemma {:induction false} ReportRowsOfSerialized(records: seq<Record>)
    requires forall i :: 0 <= i < |records| ==>
               |records[i]| >= 2 && WellFormedRecord(records[i]) && DistinctKeys(records[i])
    ensures ReportRows(SerializedChunks(records)) == records
    decreases |records|
  {
    if |records| > 0 {
      var init := records[..|records| - 1];
      var last := records[|records| - 1];
      var context := SerializedChunks(records);
      assert records == init + [last];
      assert context[..|records| - 1] == SerializedChunks(init);
      assert ReportRows(SerializedChunks(init)) == init by {
        ReportRowsOfSerialized(init);
      }
      assert ParseChunk(context[|records| - 1]) == Some(last) by {
        ParseSerializeRoundTrip(last);
      }
    }
  }

  /** generate_report from the RAG call to the returned table, with the clock reading given. */
  method GenerateReport(query: string, language: string, docs: seq<Document>, generated: string,
                        generatedAt: string) returns (r: Result<ReportResponse, QueryError>)
    requires AllSearchable(docs)
    ensures r == ReportResult(query, language, docs, generated, generatedAt)
  {
    var rag := RagQuery(query, language, docs, generated);
    if rag.Err? {
      return Err(rag.error);
    }
    var reportData := BuildReportData(rag.value.contextUsed);
    if |reportData| == 0 {
      reportData := [SummaryRow(query, rag.value.answer, language, generatedAt, rag.value.sources, |docs|)];
    }
    return Ok(ReportResponse(reportData, query, rag.value.answer, rag.value.sources));
  }
}
