/** The table's CSV export (`convertToCSV`): records become a header line of
    field names and one line per record, fields joined by `,`, lines by LF.
    String fields are escaped the way section 2, rules 6 and 7 of RFC 4180
    describe. The module also holds a reader for that quoting, used to state
    that the export can be read back field for field. */
module Csv {
  import opened Wrappers
  import opened Text
  import opened Sequences

  /** A field value of a fetched record: a JavaScript string, any other
      non-null value (number, boolean, ...) given by the text JavaScript
      converts it to, or `null`/`undefined`. */
  datatype Value = Str(s: string) | Other(text: string) | Null

  /** A record as its (key, value) pairs in key order. */
  type Record = seq<(string, Value)>

  /** `Object.keys(rec)`. */
  function Keys(rec: Record): (ks: seq<string>)
    ensures |ks| == |rec|
    ensures forall i :: 0 <= i < |rec| ==> ks[i] == rec[i].0
  {
    seq(|rec|, i requires 0 <= i < |rec| => rec[i].0)
  }

  /** `rec[key]`: the value stored under `key`, `Null` when the key is absent. */
  function Lookup(rec: Record, key: string): (v: Value)
    ensures (exists i :: 0 <= i < |rec| && rec[i].0 == key) || v == Null
    ensures v != Null ==> exists i :: 0 <= i < |rec| && rec[i] == (key, v)
    ensures forall i :: 0 <= i < |rec| && rec[i].0 == key && (forall j :: 0 <= j < i ==> rec[j].0 != key)
                        ==> v == rec[i].1
    decreases |rec|
  {
    if |rec| == 0 then Null
    else if rec[0].0 == key then rec[0].1
    else Lookup(rec[1..], key)
  }

  /** A record's keys are distinct (it comes from a JavaScript object). */
  predicate DistinctKeys(rec: Record)
  {
    forall i, j :: 0 <= i < j < |rec| ==> rec[i].0 != rec[j].0
  }

  /** Looking up each of a record's own keys gives the value stored with
      it, so a record is read back in full through its keys. */
  lemma KeysLookup(rec: Record)
    requires DistinctKeys(rec)
    ensures forall i :: 0 <= i < |rec| ==> Lookup(rec, Keys(rec)[i]) == rec[i].1
  {
    forall i | 0 <= i < |rec| ensures Lookup(rec, Keys(rec)[i]) == rec[i].1 {
      assert forall j :: 0 <= j < i ==> rec[j].0 != rec[i].0;
    }
  }

  /** `rec[key] ?? ""`: a missing or null field reads as the empty string. */
  function FieldValue(rec: Record, key: string): (v: Value)
    ensures v != Null
    ensures Lookup(rec, key) != Null ==> v == Lookup(rec, key)
    ensures Lookup(rec, key) == Null ==> v == Str("")
  {
    match Lookup(rec, key)
    case Null => Str("")
    case v => v
  }

  /** `s.replace(/"/g, '""')`: every double quote doubled. */
  function DoubleQuotes(s: string): (r: string)
    ensures |r| >= |s|
    ensures forall c :: c in r <==> c in s
    ensures '"' !in s ==> r == s
  {
    if |s| == 0 then ""
    else (if s[0] == '"' then "\"\"" else [s[0]]) + DoubleQuotes(s[1..])
  }

  /** `/[",\n]/.test(t)`: the characters that force a field into quotes. */
  predicate NeedsQuotes(t: string)
  {
    '"' in t || ',' in t || '\n' in t
  }

  /** The escaped form of a string field: quotes doubled, and the whole field
      in quotes exactly when the value holds a quote, a comma or an LF;
      a value free of all three is emitted unchanged. */
  function EscapeString(s: string): (r: string)
    ensures NeedsQuotes(s) ==> r == "\"" + DoubleQuotes(s) + "\""
    ensures !NeedsQuotes(s) ==> r == s
  {
    var d := DoubleQuotes(s);
    if NeedsQuotes(d) then "\"" + d + "\"" else d
  }

  /** The text one field contributes to its line: strings escaped, other
      values verbatim. */
  function EncodeValue(v: Value): string
  {
    match v
    case Str(s) => EscapeString(s)
    case Other(t) => t
    case Null => ""
  }

  /** The line of `rec` under `header`: one field per header key, looked up
      by key. */
  function RowLine(header: seq<string>, rec: Record): string
  {
    Join(RowFields(header, rec), ',')
  }

  /** The fields of `rec`'s line, one per header key. */
  function RowFields(header: seq<string>, rec: Record): seq<string>
  {
    seq(|header|, i requires 0 <= i < |header| => EncodeValue(FieldValue(rec, header[i])))
  }

  /** The export's lines: the header, then one line per record. */
  function Lines(data: seq<Record>): seq<string>
    requires |data| > 0
  {
    var header := Keys(data[0]);
    [Join(header, ',')] + seq(|data|, i requires 0 <= i < |data| => RowLine(header, data[i]))
  }

  /** `convertToCSV(data)`. The text is empty exactly when there are no
      records: even a record with no keys produces a line break. */
  function ConvertToCsv(data: seq<Record>): (csv: string)
    ensures csv == "" <==> data == []
    ensures data != [] ==> '\n' in csv
  {
    if |data| == 0 then ""
    else
      var lines := Lines(data);
      var csv := Join(lines, '\n');
      assert csv[|lines[0]|] == '\n';
      csv
  }

  // ---------------------------------------------------------------------
  // Reading CSV text back, with the quoting of section 2 of RFC 4180 and
  // LF as record separator: every LF outside quotes ends a record.
  // ---------------------------------------------------------------------

  /** The content of a quoted field after its opening quote, up to its
      closing quote, with `""` read as one quote; also returns the text after
      the closing quote. `None` when the closing quote is missing. */
  function ParseQuoted(t: string): (r: Option<(string, string)>)
    ensures r.Some? ==> |r.value.1| < |t|
    decreases |t|
  {
    if |t| == 0 then None
    else if t[0] == '"' then
      if |t| > 1 && t[1] == '"' then
        match ParseQuoted(t[2..])
        case None => None
        case Some((s, rest)) => Some(("\"" + s, rest))
      else Some(("", t[1..]))
    else
      match ParseQuoted(t[1..])
      case None => None
      case Some((s, rest)) => Some(([t[0]] + s, rest))
  }

  /** Length of the unquoted field at the start of `t`: up to the first comma
      or LF. */
  function PlainLength(t: string): (n: nat)
    ensures n <= |t|
    ensures forall i :: 0 <= i < n ==> t[i] != ',' && t[i] != '\n'
    ensures n < |t| ==> t[n] == ',' || t[n] == '\n'
    decreases |t|
  {
    if |t| == 0 || t[0] == ',' || t[0] == '\n' then 0 else 1 + PlainLength(t[1..])
  }

  /** One field at the start of `t` and the text after it. An unquoted
      field may not contain a quote (rule 5 of RFC 4180). */
  function ParseField(t: string): (r: Option<(string, string)>)
    ensures r.Some? ==> |r.value.1| <= |t|
  {
    if |t| > 0 && t[0] == '"' then ParseQuoted(t[1..])
    else
      var n := PlainLength(t);
      if '"' in t[..n] then None else Some((t[..n], t[n..]))
  }

  /** The fields of the record at the start of `t`, and the text after the
      LF that ends it (`None` when the record ends with the text). */
  function ParseRecord(t: string): (r: Option<(seq<string>, Option<string>)>)
    ensures r.Some? ==> |r.value.0| > 0
    ensures r.Some? && r.value.1.Some? ==> |r.value.1.value| < |t|
    decreases |t|
  {
    match ParseField(t)
    case None => None
    case Some((f, rest)) =>
      if |rest| == 0 then Some(([f], None))
      else if rest[0] == '\n' then Some(([f], Some(rest[1..])))
      else if rest[0] == ',' then
        match ParseRecord(rest[1..])
        case None => None
        case Some((fs, next)) => Some(([f] + fs, next))
      else None
  }

  /** All records of the text `t`. */
  function ParseDocument(t: string): (r: Option<seq<seq<string>>>)
    ensures r.Some? ==> |r.value| > 0
    decreases |t|
  {
    match ParseRecord(t)
    case None => None
    case Some((fields, None)) => Some([fields])
    case Some((fields, Some(next))) =>
      match ParseDocument(next)
      case None => None
      case Some(records) => Some([fields] + records)
  }

  // ---------------------------------------------------------------------
  // Round trip
  // ---------------------------------------------------------------------

  /** Text that can stand in a CSV field without quotes. */
  predicate Plain(t: string)
  {
    !NeedsQuotes(t)
  }

  /** What a reader recovers from the field written for `v`: the string
      itself, the text of another value, the empty string for null. */
  function CellText(v: Value): string
  {
    match v
    case Str(s) => s
    case Other(t) => t
    case Null => ""
  }

  /** `cell` is a written field that reads back as `text`. */
  predicate FieldEncodes(cell: string, text: string)
  {
    cell == EscapeString(text) || (Plain(text) && cell == text)
  }

  /** The text after a field: the end, or the separator of the next field
      or record. */
  predicate FieldFollower(rest: string)
  {
    |rest| == 0 || rest[0] == ',' || rest[0] == '\n'
  }

  /** A quoted field's content, quotes doubled and closed, reads back as
      the original value. */
  lemma {:induction false} QuotedRoundTrip(s: string, rest: string)
    requires |rest| == 0 || rest[0] != '"'
    ensures ParseQuoted(DoubleQuotes(s) + ("\"" + rest)) == Some((s, rest))
    decreases |s|
  {
    var closing := "\"" + rest;
    if |s| == 0 {
      assert DoubleQuotes(s) + closing == closing;
      assert closing[1..] == rest;
    } else {
      DoubleQuotesFirst(s, closing);
      QuotedRoundTrip(s[1..], rest);
      ParseQuotedAfter(s[0], DoubleQuotes(s[1..]) + closing);
      assert [s[0]] + s[1..] == s;
    }
  }

  /** Doubling the quotes of a non-empty text, followed by `rest`, starts
      with its first character, doubled when it is a quote. */
  lemma DoubleQuotesFirst(s: string, rest: string)
    requires |s| > 0
    ensures DoubleQuotes(s) + rest
            == (if s[0] == '"' then "\"\"" else [s[0]]) + (DoubleQuotes(s[1..]) + rest)
  {
    var head := if s[0] == '"' then "\"\"" else [s[0]];
    var tail := DoubleQuotes(s[1..]);
    assert DoubleQuotes(s) == head + tail;
    ConcatAssoc(head, tail, rest);
  }

  /** The reader copies a character, or one quote for two, and reads on. */
  lemma ParseQuotedAfter(c: char, t: string)
    ensures ParseQuoted((if c == '"' then "\"\"" else [c]) + t)
            == match ParseQuoted(t)
               case None => None
               case Some((s, rest)) => Some(([c] + s, rest))
  {
    var u := (if c == '"' then "\"\"" else [c]) + t;
    if c == '"' {
      assert u[0] == '"' && u[1] == '"';
      assert u[2..] == t;
    } else {
      assert u[0] == c;
      assert u[1..] == t;
    }
  }

  /** A written field followed by a separator or the end reads back as its
      text, and the reader stops right before the separator. */
  lemma FieldRoundTrip(cell: string, text: string, rest: string)
    requires FieldEncodes(cell, text)
    requires FieldFollower(rest)
    ensures ParseField(cell + rest) == Some((text, rest))
  {
    var t := cell + rest;
    if NeedsQuotes(text) && cell == EscapeString(text) {
      assert t == "\"" + (DoubleQuotes(text) + "\"" + rest);
      assert t[0] == '"';
      assert t[1..] == DoubleQuotes(text) + ("\"" + rest);
      QuotedRoundTrip(text, rest);
    } else {
      assert cell == text;
      PlainFieldRoundTrip(text, rest);
    }
  }

  /** An unquoted field followed by a separator or the end reads back as
      itself. */
  lemma PlainFieldRoundTrip(text: string, rest: string)
    requires Plain(text)
    requires FieldFollower(rest)
    ensures ParseField(text + rest) == Some((text, rest))
  {
    var t := text + rest;
    if |text| > 0 {
      assert t[0] == text[0];
    }
    var n := PlainLength(t);
    assert n <= |text| by {
      if |rest| > 0 {
        assert t[|text|] == rest[0];
      }
    }
    assert n >= |text|;
    assert t[..n] == text;
    assert t[n..] == rest;
  }

  /** A line of written fields joined by commas, followed by the end or by
      an LF, reads back as the fields' texts. */
  lemma {:induction false} RecordRoundTrip(cells: seq<string>, texts: seq<string>, rest: string)
    requires |cells| == |texts| > 0
    requires forall j :: 0 <= j < |cells| ==> FieldEncodes(cells[j], texts[j])
    requires |rest| == 0 || rest[0] == '\n'
    ensures ParseRecord(Join(cells, ',') + rest)
            == Some((texts, if |rest| == 0 then None else Some(rest[1..])))
    decreases |cells|
  {
    if |cells| == 1 {
      assert Join(cells, ',') + rest == cells[0] + rest;
      LastFieldRoundTrip(cells[0], texts[0], rest);
      assert [texts[0]] == texts;
    } else {
      var tail := Join(cells[1..], ',') + rest;
      JoinFirst(cells, ',', rest);
      assert forall j :: 0 <= j < |cells| - 1 ==> cells[1..][j] == cells[j + 1] && texts[1..][j] == texts[j + 1];
      RecordRoundTrip(cells[1..], texts[1..], rest);
      NextFieldRoundTrip(cells[0], texts[0], tail);
      assert [texts[0]] + texts[1..] == texts;
    }
  }

  /** A record's last field, followed by the end or an LF, ends the record. */
  lemma LastFieldRoundTrip(cell: string, text: string, rest: string)
    requires FieldEncodes(cell, text)
    requires |rest| == 0 || rest[0] == '\n'
    ensures ParseRecord(cell + rest) == Some(([text], if |rest| == 0 then None else Some(rest[1..])))
  {
    FieldRoundTrip(cell, text, rest);
    ParseRecordAfterField(cell + rest, text, rest);
  }

  /** A field followed by a comma is the first of the record's fields. */
  lemma NextFieldRoundTrip(cell: string, text: string, tail: string)
    requires FieldEncodes(cell, text)
    ensures ParseRecord(cell + ("," + tail)) == match ParseRecord(tail)
                                                case None => None
                                                case Some((fs, next)) => Some(([text] + fs, next))
  {
    FieldRoundTrip(cell, text, "," + tail);
    ParseRecordAfterField(cell + ("," + tail), text, "," + tail);
    assert ("," + tail)[1..] == tail;
  }

  /** How the reader goes on after the first field of a record. */
  lemma ParseRecordAfterField(t: string, f: string, rest: string)
    requires ParseField(t) == Some((f, rest))
    ensures |rest| == 0 ==> ParseRecord(t) == Some(([f], None))
    ensures |rest| > 0 && rest[0] == '\n' ==> ParseRecord(t) == Some(([f], Some(rest[1..])))
    ensures |rest| > 0 && rest[0] == ',' ==>
              ParseRecord(t) == match ParseRecord(rest[1..])
                                case None => None
                                case Some((fs, next)) => Some(([f] + fs, next))
  {
  }

  /** Lines of written fields joined by LF read back as the records of
      fields' texts, one record per line. */
  lemma {:induction false} DocumentRoundTrip(lines: seq<string>, cells: seq<seq<string>>, texts: seq<seq<string>>)
    requires |lines| == |cells| == |texts| > 0
    requires forall i :: 0 <= i < |lines| ==> lines[i] == Join(cells[i], ',')
    requires forall i :: 0 <= i < |cells| ==> |cells[i]| == |texts[i]| > 0
    requires forall i, j :: 0 <= i < |cells| && 0 <= j < |cells[i]| ==> FieldEncodes(cells[i][j], texts[i][j])
    ensures ParseDocument(Join(lines, '\n')) == Some(texts)
    decreases |lines|
  {
    if |lines| == 1 {
      RecordRoundTrip(cells[0], texts[0], "");
      assert Join(lines, '\n') == lines[0] + "";
      assert [texts[0]] == texts;
    } else {
      var tail := Join(lines[1..], '\n');
      JoinFirst(lines, '\n', "");
      assert tail + "" == tail;
      assert Join(lines, '\n') + "" == Join(lines, '\n');
      RecordRoundTrip(cells[0], texts[0], "\n" + tail);
      assert ("\n" + tail)[1..] == tail;
      DocumentRoundTrip(lines[1..], cells[1..], texts[1..]);
      assert [texts[0]] + texts[1..] == texts;
    }
  }

  /** Records whose export can be read back field for field: at least one
      record, a first record with at least one key, keys and non-string
      values free of quotes, commas and LFs. */
  ghost predicate Exportable(data: seq<Record>)
  {
    && |data| > 0
    && |data[0]| > 0
    && (forall j :: 0 <= j < |data[0]| ==> Plain(data[0][j].0))
    && (forall i, j :: 0 <= i < |data| && 0 <= j < |data[i]| && data[i][j].1.Other? ==> Plain(data[i][j].1.text))
  }

  /** What reading the export back must give: the first record's keys, then
      for every record, in order, one field per key holding the record's
      value under that key, with null and missing values empty. */
  function ExpectedTable(data: seq<Record>): seq<seq<string>>
    requires |data| > 0
  {
    var header := Keys(data[0]);
    [header] + seq(|data|, i requires 0 <= i < |data| =>
                     seq(|header|, j requires 0 <= j < |header| => CellText(Lookup(data[i], header[j]))))
  }

  /** The field written for `rec` under `key` reads back as the record's
      value under that key. */
  lemma CellRoundTrip(data: seq<Record>, i: nat, key: string)
    requires Exportable(data)
    requires i < |data|
    ensures FieldEncodes(EncodeValue(FieldValue(data[i], key)), CellText(Lookup(data[i], key)))
  {
    var v := Lookup(data[i], key);
    if v.Other? {
      var j :| 0 <= j < |data[i]| && data[i][j] == (key, v);
      assert data[i][j].1.Other?;
    }
  }

  /** Reading the export of exportable records back with RFC 4180 quoting
      gives the header, then exactly one row per record with exactly one
      field per header key, each equal to the record's value (empty for
      null or missing values). */
  lemma ExportRoundTrip(data: seq<Record>)
    requires Exportable(data)
    ensures ParseDocument(ConvertToCsv(data)) == Some(ExpectedTable(data))
  {
    ExportLines(data);
    ExportCells(data);
    DocumentRoundTrip(Lines(data), WrittenTable(data), ExpectedTable(data));
  }

  /** The fields the export writes, line by line. */
  function WrittenTable(data: seq<Record>): seq<seq<string>>
    requires |data| > 0
  {
    var header := Keys(data[0]);
    [header] + seq(|data|, i requires 0 <= i < |data| => RowFields(header, data[i]))
  }

  /** Each line of the export joins that line's written fields. */
  lemma ExportLines(data: seq<Record>)
    requires |data| > 0
    ensures |Lines(data)| == |WrittenTable(data)|
    ensures forall i :: 0 <= i < |Lines(data)| ==> Lines(data)[i] == Join(WrittenTable(data)[i], ',')
  {
  }

  /** Each written field encodes the text expected back in its place. */
  lemma ExportCells(data: seq<Record>)
    requires Exportable(data)
    ensures |WrittenTable(data)| == |ExpectedTable(data)|
    ensures forall i :: 0 <= i < |WrittenTable(data)| ==> |WrittenTable(data)[i]| == |ExpectedTable(data)[i]| > 0
    ensures forall i, j :: 0 <= i < |WrittenTable(data)| && 0 <= j < |WrittenTable(data)[i]| ==>
              FieldEncodes(WrittenTable(data)[i][j], ExpectedTable(data)[i][j])
  {
    var header := Keys(data[0]);
    var cells := WrittenTable(data);
    var texts := ExpectedTable(data);
    forall i, j | 0 <= i < |cells| && 0 <= j < |cells[i]| ensures FieldEncodes(cells[i][j], texts[i][j]) {
      if i == 0 {
        assert cells[i][j] == header[j] == data[0][j].0;
        assert texts[i][j] == header[j];
      } else {
        assert cells[i][j] == EncodeValue(FieldValue(data[i - 1], header[j]));
        assert texts[i][j] == CellText(Lookup(data[i - 1], header[j]));
        CellRoundTrip(data, i - 1, header[j]);
      }
    }
  }
}
