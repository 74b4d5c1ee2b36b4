/** The CSV writer of the map page (`exportToCsv` with its `processRow`): a byte-order
    mark, a header line of the first row's keys without the two filter columns, then one
    line per row with every field quoted and the fields separated by `;`. */
module CsvExport {
  import opened Wrappers
  import opened Seqs
  import opened JsRecords
  import opened FilterColumns

  const Bom: char := '\U{FEFF}'

  // ---------------------------------------------------------------------------
  // Fields and lines
  // ---------------------------------------------------------------------------

  /** `v === null ? '' : v.toString()`. `toString` of `undefined` throws a TypeError,
      which is `None`; `show` stands for `Number.prototype.toString`. */
  function FieldText(v: JsValue, show: real -> string): (t: Option<string>)
    ensures t.None? <==> v == JUndefined
    ensures v == JNull ==> t == Some("")
    ensures v.JStr? ==> t == Some(v.s)
  {
    match v
    case JUndefined => None
    case JNull => Some("")
    case JBool(b) => Some(if b then "true" else "false")
    case JNum(x) => Some(show(x))
    case JStr(s) => Some(s)
  }

  /** `s.replace(/"/g, '""')`. */
  function Escape(s: string): (e: string)
    ensures |e| >= |s|
  {
    if s == [] then ""
    else (if s[0] == '"' then "\"\"" else [s[0]]) + Escape(s[1..])
  }

  /** `'"' + escaped + '"'`. */
  function Quote(s: string): (q: string)
    ensures |q| >= |s| + 2 && q[0] == '"' && q[|q| - 1] == '"'
  {
    "\"" + Escape(s) + "\""
  }

  /** `fields.join(';')`. */
  function JoinFields(fields: seq<string>): string
  {
    if |fields| == 0 then ""
    else if |fields| == 1 then fields[0]
    else fields[0] + ";" + JoinFields(fields[1..])
  }

  /** The texts of all values, or `None` as soon as one of them throws. */
  function Texts(vs: seq<JsValue>, show: real -> string): (r: Option<seq<string>>)
    ensures r.Some? <==> forall k :: 0 <= k < |vs| ==> vs[k] != JUndefined
    ensures r.Some? ==> |r.value| == |vs| && forall k :: 0 <= k < |vs| ==> FieldText(vs[k], show) == Some(r.value[k])
  {
    if vs == [] then Some([])
    else match (FieldText(vs[0], show), Texts(vs[1..], show))
      case (Some(t), Some(ts)) => Some([t] + ts)
      case _ => None
  }

  /** A data line without its line break: the quoted texts joined by `;`. */
  function EncodeLine(texts: seq<string>): string
  {
    JoinFields(seq(|texts|, k requires 0 <= k < |texts| => Quote(texts[k])))
  }

  /** `processRow(row)`: the row's values in key order, as one line. */
  function ProcessRow(row: Record, show: real -> string): (line: Option<string>)
    ensures line.Some? <==> forall k :: 0 <= k < |row| ==> row[k].1 != JUndefined
  {
    assert forall k :: 0 <= k < |row| ==> Values(row)[k] == row[k].1;
    match Texts(Values(row), show)
    case Some(ts) => Some(EncodeLine(ts))
    case None => None
  }

  // ---------------------------------------------------------------------------
  // The file
  // ---------------------------------------------------------------------------

  predicate IsFilterColumn(h: string)
  {
    h == EstadoFiltro || h == CidadeFiltro
  }

  /** `Object.keys(rows[0]).filter(...)`. */
  function Headers(first: Record): (hs: seq<string>)
    ensures Distinct(hs)
  {
    assert Distinct(Keys(first));
    FilterDistinct(Keys(first), h => !IsFilterColumn(h));
    Filter(Keys(first), h => !IsFilterColumn(h))
  }

  /** `cleanRow`: the row's value under each header, in header order (`undefined` for a
      header the row lacks). */
  function Project(r: Record, hs: seq<string>): (clean: Record)
    requires Distinct(hs)
    ensures Keys(clean) == hs
    ensures Values(clean) == seq(|hs|, k requires 0 <= k < |hs| => Get(r, hs[k]))
  {
    var clean := seq(|hs|, k requires 0 <= k < |hs| => (hs[k], Get(r, hs[k])));
    assert Keys(clean) == hs;
    clean
  }

  /** The field texts of one row under the headers; `None` when one of them throws. */
  function RowTexts(r: Record, hs: seq<string>, show: real -> string): Option<seq<string>>
    requires Distinct(hs)
  {
    Texts(Values(Project(r, hs)), show)
  }

  /** The field texts of every row under the headers; `None` when some row throws. */
  function AllTexts(rows: seq<Record>, hs: seq<string>, show: real -> string): (r: Option<seq<seq<string>>>)
    requires Distinct(hs)
    ensures r.Some? <==> forall i :: 0 <= i < |rows| ==> RowTexts(rows[i], hs, show).Some?
    ensures r.Some? ==> |r.value| == |rows|
    ensures r.Some? ==> forall i :: 0 <= i < |rows| ==> RowTexts(rows[i], hs, show) == Some(r.value[i])
  {
    if rows == [] then Some([])
    else
      var n := |rows| - 1;
      assert forall i :: 0 <= i < n ==> rows[..n][i] == rows[i];
      var before := AllTexts(rows[..n], hs, show);
      var last := RowTexts(rows[n], hs, show);
      if before.Some? && last.Some? then Some(before.value + [last.value]) else None
  }

  /** Extending the rows by one: the texts grow by that row's, or the whole fails. */
  lemma AllTextsStep(rows: seq<Record>, i: nat, hs: seq<string>, show: real -> string)
    requires Distinct(hs) && i < |rows|
    requires AllTexts(rows[..i], hs, show).Some?
    ensures RowTexts(rows[i], hs, show).Some? ==>
              AllTexts(rows[..i + 1], hs, show) == Some(AllTexts(rows[..i], hs, show).value + [RowTexts(rows[i], hs, show).value])
    ensures RowTexts(rows[i], hs, show).None? ==> AllTexts(rows, hs, show).None?
  {
    assert rows[..i + 1][..i] == rows[..i];
  }

  /** A file that ends in the rendering of some lines, extended by one more line, ends in
      the rendering of all of them. */
  lemma FileStep(prefix: string, before: seq<seq<string>>, t: seq<string>, file: string)
    requires file == prefix + Render(before)
    ensures file + (EncodeLine(t) + "\n") == prefix + Render(before + [t])
  {
    RenderAppend(before, t);
    var line := EncodeLine(t) + "\n";
    assert (prefix + Render(before)) + line == prefix + (Render(before) + line);
  }

  /** The data lines, each followed by a line break. */
  function Render(lines: seq<seq<string>>): string
  {
    if lines == [] then ""
    else EncodeLine(lines[0]) + "\n" + Render(lines[1..])
  }

  lemma {:induction false} RenderAppend(lines: seq<seq<string>>, last: seq<string>)
    ensures Render(lines + [last]) == Render(lines) + (EncodeLine(last) + "\n")
  {
    if lines != [] {
      assert (lines + [last])[1..] == lines[1..] + [last];
      RenderAppend(lines[1..], last);
    }
  }

  /** What `exportToCsv` writes into the blob, or `None` when it throws: on `rows[0]` of
      an empty list, or on a header that some row leaves undefined. */
  function CsvText(rows: seq<Record>, show: real -> string): (file: Option<string>)
    ensures file.Some? ==> |file.value| > 0 && file.value[0] == Bom
  {
    if rows == [] then None
    else
      var hs := Headers(rows[0]);
      match AllTexts(rows, hs, show)
      case Some(lines) => Some([Bom] + JoinFields(hs) + "\n" + Render(lines))
      case None => None
  }

  /** `headers.forEach(h => cleanRow[h] = r[h])` on a fresh `cleanRow`. */
  method CleanRow(r: Record, headers: seq<string>) returns (cleanRow: Record)
    requires Distinct(headers)
    ensures cleanRow == Project(r, headers)
  {
    cleanRow := [];
    var j := 0;
    while j < |headers|
      invariant 0 <= j <= |headers|
      invariant cleanRow == Project(r, headers[..j])
    {
      assert headers[j] !in headers[..j];
      cleanRow := Set(cleanRow, headers[j], Get(r, headers[j]));
      assert headers[..j + 1] == headers[..j] + [headers[j]];
      j := j + 1;
    }
    assert headers[..j] == headers;
  }

  /** `exportToCsv(filename, rows)` up to the download: `csvFile` grows by the header
      line and then by one line per row, `cleanRow` being filled key by key. */
  method ExportToCsv(rows: seq<Record>, show: real -> string) returns (csvFile: Option<string>)
    ensures csvFile == CsvText(rows, show)
  {
    if |rows| == 0 {
      return None;
    }
    var headers := Headers(rows[0]);
    var file := [Bom];
    file := file + JoinFields(headers) + "\n";
    ghost var prefix := file;
    var i := 0;
    while i < |rows|
      invariant 0 <= i <= |rows|
      invariant AllTexts(rows[..i], headers, show).Some?
      invariant file == prefix + Render(AllTexts(rows[..i], headers, show).value)
    {
      var cleanRow := CleanRow(rows[i], headers);
      var line := ProcessRow(cleanRow, show);
      AllTextsStep(rows, i, headers, show);
      if line.None? {
        return None;
      }
      FileStep(prefix, AllTexts(rows[..i], headers, show).value, RowTexts(rows[i], headers, show).value, file);
      file := file + (line.value + "\n");
      i := i + 1;
    }
    assert rows[..i] == rows;
    return Some(file);
  }

  // ---------------------------------------------------------------------------
  // Reading the file back
  // ---------------------------------------------------------------------------

  /** The rest of a quoted field, just after its opening quote: the unescaped text up to
      the closing quote, and what follows that quote. */
  function ParseQuoted(s: string): (r: Option<(string, string)>)
    ensures r.Some? ==> |r.value.1| < |s|
  {
    if s == [] then None
    else if s[0] == '"' then
      if |s| > 1 && s[1] == '"' then
        match ParseQuoted(s[2..])
        case Some((f, rest)) => Some(("\"" + f, rest))
        case None => None
      else Some(("", s[1..]))
    else
      match ParseQuoted(s[1..])
      case Some((f, rest)) => Some(([s[0]] + f, rest))
      case None => None
  }

  /** One or more quoted fields separated by `;` and ended by a line break; also gives
      what follows the break. */
  function ParseFields(s: string): (r: Option<(seq<string>, string)>)
    ensures r.Some? ==> |r.value.1| < |s|
    decreases |s|
  {
    if s == [] || s[0] != '"' then None
    else
      match ParseQuoted(s[1..])
      case None => None
      case Some((f, rest)) =>
        if rest == [] then None
        else if rest[0] == '\n' then Some(([f], rest[1..]))
        else if rest[0] == ';' then
          match ParseFields(rest[1..])
          case Some((fs, after)) => Some(([f] + fs, after))
          case None => None
        else None
  }

  /** One data line: no field at all when it is empty, otherwise its quoted fields. */
  function ParseLine(s: string): (r: Option<(seq<string>, string)>)
    ensures r.Some? ==> |r.value.1| < |s|
  {
    if s != [] && s[0] == '\n' then Some(([], s[1..])) else ParseFields(s)
  }

  /** Every data line up to the end of the text. */
  function ParseBody(s: string): Option<seq<seq<string>>>
    decreases |s|
  {
    if s == [] then Some([])
    else
      match ParseLine(s)
      case None => None
      case Some((fs, rest)) =>
        match ParseBody(rest)
        case Some(more) => Some([fs] + more)
        case None => None
  }

  /** Unescaping undoes escaping, and the closing quote is found exactly where the field
      ends (what follows a field never starts with a quote). */
  lemma {:induction false} QuotedRoundTrip(x: string, tail: string)
    requires tail == [] || tail[0] != '"'
    ensures ParseQuoted(Escape(x) + "\"" + tail) == Some((x, tail))
  {
    var s := Escape(x) + "\"" + tail;
    if x == [] {
      assert s == "\"" + tail;
    } else if x[0] == '"' {
      assert s == "\"\"" + (Escape(x[1..]) + "\"" + tail);
      QuotedRoundTrip(x[1..], tail);
      assert s[2..] == Escape(x[1..]) + "\"" + tail;
      assert x == "\"" + x[1..];
    } else {
      assert s == [x[0]] + (Escape(x[1..]) + "\"" + tail);
      QuotedRoundTrip(x[1..], tail);
      assert s[1..] == Escape(x[1..]) + "\"" + tail;
      assert x == [x[0]] + x[1..];
    }
  }

  /** Stripping the outer quotes of a field and turning `""` back into `"` gives back the
      original text. */
  lemma FieldRoundTrip(x: string)
    ensures Quote(x)[0] == '"' && ParseQuoted(Quote(x)[1..]) == Some((x, ""))
  {
    assert Quote(x)[1..] == Escape(x) + "\"" + "";
    QuotedRoundTrip(x, "");
  }

  lemma {:induction false} FieldsRoundTrip(texts: seq<string>, tail: string)
    requires texts != []
    ensures ParseFields(EncodeLine(texts) + "\n" + tail) == Some((texts, tail))
  {
    if |texts| == 1 {
      LastFieldRoundTrip(texts, tail);
    } else {
      FieldsRoundTrip(texts[1..], tail);
      FirstFieldRoundTrip(texts, tail);
    }
  }

  /** A line of one field parses back to that field. */
  lemma LastFieldRoundTrip(texts: seq<string>, tail: string)
    requires |texts| == 1
    ensures ParseFields(EncodeLine(texts) + "\n" + tail) == Some((texts, tail))
  {
    assert EncodeLine(texts) == Quote(texts[0]);
    ParseLastField(texts[0], tail);
    assert texts == [texts[0]];
  }

  /** If the fields after the first parse back, so does the whole line. */
  lemma FirstFieldRoundTrip(texts: seq<string>, tail: string)
    requires |texts| > 1
    requires ParseFields(EncodeLine(texts[1..]) + "\n" + tail) == Some((texts[1..], tail))
    ensures ParseFields(EncodeLine(texts) + "\n" + tail) == Some((texts, tail))
  {
    var more := EncodeLine(texts[1..]) + "\n" + tail;
    EncodeLineCons(texts);
    assert EncodeLine(texts) + "\n" + tail == Quote(texts[0]) + ";" + more;
    ParseFieldThenMore(texts[0], more);
    assert texts == [texts[0]] + texts[1..];
  }

  /** A line of several fields is the first one quoted, a `;`, and the line of the others. */
  lemma EncodeLineCons(texts: seq<string>)
    requires |texts| > 1
    ensures EncodeLine(texts) == Quote(texts[0]) + ";" + EncodeLine(texts[1..])
  {
    var quoted := seq(|texts|, k requires 0 <= k < |texts| => Quote(texts[k]));
    assert quoted[1..] == seq(|texts[1..]|, k requires 0 <= k < |texts[1..]| => Quote(texts[1..][k]));
  }

  /** A quoted field closed by a line break ends the fields. */
  lemma ParseLastField(t: string, tail: string)
    ensures ParseFields(Quote(t) + "\n" + tail) == Some(([t], tail))
  {
    var s := Quote(t) + "\n" + tail;
    assert s[1..] == Escape(t) + "\"" + ("\n" + tail);
    QuotedRoundTrip(t, "\n" + tail);
    assert ("\n" + tail)[1..] == tail;
  }

  /** A quoted field followed by `;` is the first of the fields that follow. */
  lemma ParseFieldThenMore(t: string, more: string)
    ensures ParseFields(Quote(t) + ";" + more)
            == match ParseFields(more)
               case Some((fs, after)) => Some(([t] + fs, after))
               case None => None
  {
    var s := Quote(t) + ";" + more;
    assert s[1..] == Escape(t) + "\"" + (";" + more);
    QuotedRoundTrip(t, ";" + more);
    assert (";" + more)[1..] == more;
  }

  /** A data line reads back as exactly the texts it was made from, whatever they
      contain (quotes, `;`, line breaks), and reading stops right after its line break. */
  lemma LineRoundTrip(texts: seq<string>, tail: string)
    ensures ParseLine(EncodeLine(texts) + "\n" + tail) == Some((texts, tail))
  {
    if texts == [] {
      assert EncodeLine(texts) + "\n" + tail == "\n" + tail;
    } else {
      FieldsRoundTrip(texts, tail);
      assert (EncodeLine(texts) + "\n" + tail)[0] == '"';
    }
  }

  /** All data lines read back as the texts they were made from, one list per line. */
  lemma {:induction false} BodyRoundTrip(lines: seq<seq<string>>)
    ensures ParseBody(Render(lines)) == Some(lines)
  {
    if lines != [] {
      var s := Render(lines);
      assert s == EncodeLine(lines[0]) + "\n" + Render(lines[1..]);
      LineRoundTrip(lines[0], Render(lines[1..]));
      BodyRoundTrip(lines[1..]);
      assert lines == [lines[0]] + lines[1..];
    }
  }

  // ---------------------------------------------------------------------------
  // What the file holds
  // ---------------------------------------------------------------------------

  /** The header lists the first row's keys in their order, leaving out exactly the two
      filter columns. */
  lemma HeadersExact(first: Record, h: string)
    ensures h in Headers(first) <==> h in Keys(first) && !IsFilterColumn(h)
    ensures Headers(first) == Filter(Keys(first), h => !IsFilterColumn(h))
  {
    if h in Keys(first) && !IsFilterColumn(h) {
      var k :| 0 <= k < |Keys(first)| && Keys(first)[k] == h;
    }
  }

  /** The writer fails exactly when there is no row, or when some row leaves a header
      undefined. */
  lemma CsvFailsExactly(rows: seq<Record>, show: real -> string)
    ensures CsvText(rows, show).None? <==>
              rows == [] || exists i, k :: 0 <= i < |rows| && 0 <= k < |Headers(rows[0])|
                                           && Get(rows[i], Headers(rows[0])[k]) == JUndefined
  {
    if rows != [] {
      var hs := Headers(rows[0]);
      if CsvText(rows, show).None? {
        var i :| 0 <= i < |rows| && RowTexts(rows[i], hs, show).None?;
        var vs := Values(Project(rows[i], hs));
        var k :| 0 <= k < |vs| && vs[k] == JUndefined;
        assert Get(rows[i], hs[k]) == JUndefined;
      } else {
        forall i, k | 0 <= i < |rows| && 0 <= k < |hs|
          ensures Get(rows[i], hs[k]) != JUndefined
        {
          assert Values(Project(rows[i], hs))[k] == Get(rows[i], hs[k]);
        }
      }
    }
  }

  /** The file is the byte-order mark, the header names joined by `;` and a line break,
      then one line per row: read back, line `i` holds, for each header in order, the text
      of row `i`'s value under that header. */
  lemma CsvLayout(rows: seq<Record>, show: real -> string)
    requires CsvText(rows, show).Some?
    ensures var hs := Headers(rows[0]);
            var file := CsvText(rows, show).value;
            var head := [Bom] + JoinFields(hs) + "\n";
            && file[..|head|] == head
            && var body := ParseBody(file[|head|..]);
            && body.Some? && |body.value| == |rows|
            && forall i :: 0 <= i < |rows| ==>
                 |body.value[i]| == |hs|
                 && forall k :: 0 <= k < |hs| ==> FieldText(Get(rows[i], hs[k]), show) == Some(body.value[i][k])
  {
    var hs := Headers(rows[0]);
    var lines := AllTexts(rows, hs, show).value;
    var head := [Bom] + JoinFields(hs) + "\n";
    var file := CsvText(rows, show).value;
    assert file == head + Render(lines);
    assert file[|head|..] == Render(lines);
    BodyRoundTrip(lines);
    forall i, k | 0 <= i < |rows| && 0 <= k < |hs|
      ensures FieldText(Get(rows[i], hs[k]), show) == Some(lines[i][k])
    {
      assert Values(Project(rows[i], hs))[k] == Get(rows[i], hs[k]);
    }
  }
}
