/** Audit events and their CSV export. */
module AuditEvents {
  datatype EventKind = ModelCall | MemoryWrite | MemoryRead | ToolExec | ChannelSend

  function Label(k: EventKind): string {
    match k
    case ModelCall => "model-call"
    case MemoryWrite => "memory-write"
    case MemoryRead => "memory-read"
    case ToolExec => "tool-exec"
    case ChannelSend => "channel-send"
  }

  datatype AuditEvent = AuditEvent(
    id: string,
    timestamp: string,
    actor: string,
    kind: EventKind,
    dataSummary: string,
    destination: string,
    piiFlag: bool)
}

module CsvExport {
  import opened Wrappers
  import opened AuditEvents

  const HEADER := ["id", "timestamp", "actor", "kind", "data_summary", "destination", "pii_flag"]
  const HEADER_ROW :=
    "id" + "," + "timestamp" + "," + "actor" + "," + "kind" + ","
      + "data_summary" + "," + "destination" + "," + "pii_flag"

  predicate Special(c: char) { c == ',' || c == '"' || c == '\n' || c == '\r' }

  /** Some character is a comma, a double quote or a line break. */
  predicate NeedsQuotes(s: string) { exists i :: 0 <= i < |s| && Special(s[i]) }

  /** Every double quote doubled. */
  function DoubleQuotes(s: string): string {
    if s == [] then []
    else (if s[0] == '"' then "\"\"" else [s[0]]) + DoubleQuotes(s[1..])
  }

  function Escape(s: string): string {
    if NeedsQuotes(s) then "\"" + DoubleQuotes(s) + "\"" else s
  }

  function Flag(b: bool): string { if b then "true" else "false" }

  /** The seven column texts of an event. */
  function Columns(e: AuditEvent): seq<string> {
    [e.id, e.timestamp, e.actor, Label(e.kind), e.dataSummary, e.destination, Flag(e.piiFlag)]
  }

  function JoinWith(parts: seq<string>, sep: string): string {
    if parts == [] then "" else if |parts| == 1 then parts[0] else parts[0] + sep + JoinWith(parts[1..], sep)
  }

  function EscapeAll(cols: seq<string>): (r: seq<string>)
    ensures |r| == |cols| && forall i :: 0 <= i < |cols| ==> r[i] == Escape(cols[i])
  {
    if cols == [] then [] else [Escape(cols[0])] + EscapeAll(cols[1..])
  }

  function Row(e: AuditEvent): string { JoinWith(EscapeAll(Columns(e)), ",") }

  function Rows(events: seq<AuditEvent>): seq<string> {
    if events == [] then [] else [Row(events[0])] + Rows(events[1..])
  }

  function Exported(events: seq<AuditEvent>): string { JoinWith([HEADER_ROW] + Rows(events), "\n") }

  method ExportCsv(events: seq<AuditEvent>) returns (csv: string)
    ensures csv == Exported(events)
  {
    var rows := [HEADER_ROW];
    assert events[0..] == events;
    for i := 0 to |events|
      invariant rows + Rows(events[i..]) == [HEADER_ROW] + Rows(events)
    {
      var e := events[i];
      assert events[i..][0] == e && events[i..][1..] == events[i + 1..];
      RowText(e);
      rows := rows + [Escape(e.id) + "," + Escape(e.timestamp) + "," + Escape(e.actor) + "," + Escape(Label(e.kind))
                      + "," + Escape(e.dataSummary) + "," + Escape(e.destination) + "," + Flag(e.piiFlag)];
    }
    assert events[|events|..] == [] && rows + [] == rows;
    csv := JoinWith(rows, "\n");
  }

  lemma {:induction false} JoinSnoc(parts: seq<string>, x: string, sep: string)
    requires parts != []
    ensures JoinWith(parts + [x], sep) == JoinWith(parts, sep) + sep + x
    decreases |parts|
  {
    var all := parts + [x];
    if |parts| == 1 {
      assert all[1..] == [x];
    } else {
      assert all[1..] == parts[1..] + [x];
      JoinSnoc(parts[1..], x, sep);
      var t := JoinWith(parts[1..], sep);
      assert parts[0] + sep + (t + sep + x) == (parts[0] + sep + t) + sep + x;
    }
  }

  lemma JoinSeven(a: string, b: string, c: string, d: string, e: string, f: string, g: string)
    ensures JoinWith([a, b, c, d, e, f, g], ",") == a + "," + b + "," + c + "," + d + "," + e + "," + f + "," + g
  {
    JoinSnoc([a], b, ",");
    JoinSnoc([a, b], c, ",");
    JoinSnoc([a, b, c], d, ",");
    JoinSnoc([a, b, c, d], e, ",");
    JoinSnoc([a, b, c, d, e], f, ",");
    JoinSnoc([a, b, c, d, e, f], g, ",");
    assert [a] + [b] == [a, b] && [a, b] + [c] == [a, b, c] && [a, b, c] + [d] == [a, b, c, d];
    assert [a, b, c, d] + [e] == [a, b, c, d, e] && [a, b, c, d, e] + [f] == [a, b, c, d, e, f];
    assert [a, b, c, d, e, f] + [g] == [a, b, c, d, e, f, g];
  }

  lemma RowText(e: AuditEvent)
    ensures Row(e) == Escape(e.id) + "," + Escape(e.timestamp) + "," + Escape(e.actor) + "," + Escape(Label(e.kind))
                      + "," + Escape(e.dataSummary) + "," + Escape(e.destination) + "," + Flag(e.piiFlag)
  {
    var c := Columns(e);
    assert !NeedsQuotes(Flag(e.piiFlag));
    assert EscapeAll(c)
        == [Escape(c[0]), Escape(c[1]), Escape(c[2]), Escape(c[3]), Escape(c[4]), Escape(c[5]), Escape(c[6])];
    JoinSeven(Escape(c[0]), Escape(c[1]), Escape(c[2]), Escape(c[3]), Escape(c[4]), Escape(c[5]), Escape(c[6]));
  }

  // ---- A reader for the quoting rules of section 2 of RFC 4180, with LF row ends ----

  /** After an opening quote: the field, and what follows its closing quote. */
  function ReadQuoted(s: string): Option<(string, string)> {
    if s == [] then None
    else if s[0] == '"' then
      if |s| > 1 && s[1] == '"' then
        (match ReadQuoted(s[2..])
         case None => None
         case Some((f, rest)) => Some((['"'] + f, rest)))
      else Some(([], s[1..]))
    else
      match ReadQuoted(s[1..])
      case None => None
      case Some((f, rest)) => Some(([s[0]] + f, rest))
  }

  /** Up to the next comma or row end. */
  function ReadPlain(s: string): (string, string) {
    if s == [] || s[0] == ',' || s[0] == '\n' then ([], s)
    else
      var (f, rest) := ReadPlain(s[1..]);
      ([s[0]] + f, rest)
  }

  function ReadField(s: string): Option<(string, string)> {
    if s != [] && s[0] == '"' then ReadQuoted(s[1..]) else Some(ReadPlain(s))
  }

  lemma {:induction false} ReadQuotedShorter(s: string)
    ensures ReadQuoted(s).Some? ==> |ReadQuoted(s).value.1| < |s|
  {
    if s != [] {
      if s[0] != '"' { ReadQuotedShorter(s[1..]); }
      else if |s| > 1 && s[1] == '"' { ReadQuotedShorter(s[2..]); }
    }
  }

  lemma {:induction false} ReadPlainShorter(s: string)
    ensures |ReadPlain(s).1| <= |s|
  {
    if s != [] && s[0] != ',' && s[0] != '\n' { ReadPlainShorter(s[1..]); }
  }

  /** All rows of a text: fields end at commas, rows at line feeds. */
  function ReadRows(s: string): Option<seq<seq<string>>>
    decreases |s|
  {
    ReadQuotedShorter(if s == [] then s else s[1..]);
    ReadPlainShorter(s);
    match ReadField(s)
    case None => None
    case Some((f, rest)) =>
      if rest == [] then Some([[f]])
      else if rest[0] == ',' then
        (match ReadRows(rest[1..])
         case None => None
         case Some(rows) => if rows == [] then None else Some([[f] + rows[0]] + rows[1..]))
      else if rest[0] == '\n' then
        (match ReadRows(rest[1..])
         case None => None
         case Some(rows) => Some([[f]] + rows))
      else None
  }

  predicate EndsField(rest: string) { rest == [] || rest[0] == ',' || rest[0] == '\n' }

  lemma {:induction false} ReadDoubled(s: string, rest: string)
    requires EndsField(rest)
    ensures ReadQuoted(DoubleQuotes(s) + "\"" + rest) == Some((s, rest))
  {
    var t := DoubleQuotes(s) + "\"" + rest;
    if s == [] {
      assert t == "\"" + rest && t[1..] == rest;
    } else {
      ReadDoubled(s[1..], rest);
      var u := DoubleQuotes(s[1..]) + "\"" + rest;
      if s[0] == '"' {
        assert t == "\"\"" + u && t[2..] == u;
      } else {
        assert t == [s[0]] + u && t[1..] == u;
      }
      assert s == [s[0]] + s[1..];
    }
  }

  lemma {:induction false} ReadBare(s: string, rest: string)
    requires EndsField(rest) && !NeedsQuotes(s)
    ensures ReadPlain(s + rest) == (s, rest)
  {
    if s == [] {
      assert s + rest == rest;
    } else {
      assert Special(s[0]) ==> NeedsQuotes(s);
      assert forall i :: 0 <= i < |s| - 1 ==> s[1..][i] == s[i + 1];
      assert (s + rest)[1..] == s[1..] + rest;
      ReadBare(s[1..], rest);
      assert s == [s[0]] + s[1..];
    }
  }

  /** A field reads back as it was, whatever its characters. */
  lemma FieldReads(s: string, rest: string)
    requires EndsField(rest)
    ensures ReadField(Escape(s) + rest) == Some((s, rest))
  {
    if NeedsQuotes(s) { QuotedFieldReads(s, rest); } else { BareFieldReads(s, rest); }
  }

  lemma QuotedFieldReads(s: string, rest: string)
    requires EndsField(rest)
    ensures ReadField("\"" + DoubleQuotes(s) + "\"" + rest) == Some((s, rest))
  {
    var t, u := "\"" + DoubleQuotes(s) + "\"" + rest, DoubleQuotes(s) + "\"" + rest;
    assert t[0] == '"' && t[1..] == u;
    ReadDoubled(s, rest);
  }

  lemma BareFieldReads(s: string, rest: string)
    requires EndsField(rest) && !NeedsQuotes(s)
    ensures ReadField(s + rest) == Some((s, rest))
  {
    ReadBare(s, rest);
    if s == [] {
      assert s + rest == rest;
    } else {
      assert (s + rest)[0] == s[0];
    }
  }

  lemma RowsAtComma(s: string, f: string, tail: string)
    requires ReadField(s) == Some((f, "," + tail)) && ReadRows(tail).Some? && ReadRows(tail).value != []
    ensures ReadRows(s) == Some([[f] + ReadRows(tail).value[0]] + ReadRows(tail).value[1..])
  {}

  lemma LastFieldReads(f: string, rest: string)
    requires rest == [] || (rest[0] == '\n' && ReadRows(rest[1..]).Some?)
    ensures ReadRows(Escape(f) + rest) == Some([[f]] + (if rest == [] then [] else ReadRows(rest[1..]).value))
  {
    FieldReads(f, rest);
    assert [[f]] + [] == [[f]];
  }

  /** The first row of columns, then whatever the text goes on with. */
  lemma {:induction false} RowReads(cols: seq<string>, rest: string)
    requires cols != [] && (rest == [] || (rest[0] == '\n' && ReadRows(rest[1..]).Some?))
    ensures ReadRows(JoinWith(EscapeAll(cols), ",") + rest)
         == Some([cols] + (if rest == [] then [] else ReadRows(rest[1..]).value))
    decreases |cols|
  {
    var es := EscapeAll(cols);
    if |cols| == 1 {
      assert cols == [cols[0]];
      LastFieldReads(cols[0], rest);
    } else {
      var x, y := es[0], JoinWith(es[1..], ",");
      assert es[1..] == EscapeAll(cols[1..]);
      assert (x + "," + y) + rest == x + ("," + (y + rest));
      FieldReads(cols[0], "," + (y + rest));
      RowReads(cols[1..], rest);
      RowsAtComma(JoinWith(es, ",") + rest, cols[0], y + rest);
      assert [cols[0]] + cols[1..] == cols;
    }
  }

  function AllColumns(events: seq<AuditEvent>): seq<seq<string>> {
    if events == [] then [] else [Columns(events[0])] + AllColumns(events[1..])
  }

  lemma {:induction false} RowsRead(events: seq<AuditEvent>)
    requires events != []
    ensures ReadRows(JoinWith(Rows(events), "\n")) == Some(AllColumns(events))
  {
    var rows := Rows(events);
    if |events| == 1 {
      RowReads(Columns(events[0]), []);
      assert rows == [Row(events[0])] && rows[0] + [] == rows[0];
    } else {
      RowsRead(events[1..]);
      assert rows[1..] == Rows(events[1..]);
      var rest := "\n" + JoinWith(Rows(events[1..]), "\n");
      assert rest[1..] == JoinWith(Rows(events[1..]), "\n");
      assert JoinWith(rows, "\n") == Row(events[0]) + rest;
      RowReads(Columns(events[0]), rest);
    }
  }

  lemma HeaderRow()
    ensures HEADER_ROW == JoinWith(EscapeAll(HEADER), ",")
  {
    HeaderPlain();
    JoinSeven("id", "timestamp", "actor", "kind", "data_summary", "destination", "pii_flag");
  }

  lemma HeaderPlain()
    ensures EscapeAll(HEADER) == HEADER
  {
    assert !NeedsQuotes("id") && !NeedsQuotes("timestamp") && !NeedsQuotes("actor") && !NeedsQuotes("kind");
    assert !NeedsQuotes("data_summary") && !NeedsQuotes("destination") && !NeedsQuotes("pii_flag");
    PlainStay(HEADER);
  }

  lemma PlainStay(cols: seq<string>)
    requires forall i :: 0 <= i < |cols| ==> !NeedsQuotes(cols[i])
    ensures EscapeAll(cols) == cols
  {}

  lemma HeadedReads(header: seq<string>, row: string, events: seq<AuditEvent>)
    requires header != [] && row == JoinWith(EscapeAll(header), ",")
    ensures ReadRows(JoinWith([row] + Rows(events), "\n")) == Some([header] + AllColumns(events))
  {
    if events == [] {
      RowReads(header, []);
      assert [row] + Rows(events) == [row] && row + [] == row;
    } else {
      RowsRead(events);
      var body := JoinWith(Rows(events), "\n");
      assert ([row] + Rows(events))[1..] == Rows(events);
      assert JoinWith([row] + Rows(events), "\n") == row + ("\n" + body);
      assert ("\n" + body)[1..] == body;
      RowReads(header, "\n" + body);
    }
  }

  /** An event read back from its seven columns. */
  function EventOf(c: seq<string>): Option<AuditEvent> {
    if |c| != 7 then None
    else
      match KindFrom(c[3])
      case None => None
      case Some(kind) =>
        if c[6] == "true" then Some(AuditEvent(c[0], c[1], c[2], kind, c[4], c[5], true))
        else if c[6] == "false" then Some(AuditEvent(c[0], c[1], c[2], kind, c[4], c[5], false))
        else None
  }

  function KindFrom(text: string): Option<EventKind> {
    if text == "model-call" then Some(ModelCall)
    else if text == "memory-write" then Some(MemoryWrite)
    else if text == "memory-read" then Some(MemoryRead)
    else if text == "tool-exec" then Some(ToolExec)
    else if text == "channel-send" then Some(ChannelSend)
    else None
  }

  lemma ColumnsRead(e: AuditEvent)
    ensures EventOf(Columns(e)) == Some(e)
  {}

  /** Quotes are written exactly around fields that hold a comma, a quote or a line break. */
  lemma QuotedExactly(s: string)
    ensures (',' in s || '"' in s || '\n' in s || '\r' in s) <==> Escape(s) != s
    ensures Escape(s) != s ==> |Escape(s)| >= 2 && Escape(s)[0] == '"' && Escape(s)[|Escape(s)| - 1] == '"'
  {
    if NeedsQuotes(s) { DoubledLonger(s); }
  }

  lemma {:induction false} DoubledLonger(s: string)
    ensures |DoubleQuotes(s)| >= |s|
  {
    if s != [] { DoubledLonger(s[1..]); }
  }

  lemma {:induction false} AllColumnsAt(events: seq<AuditEvent>)
    ensures |AllColumns(events)| == |events|
    ensures forall i :: 0 <= i < |events| ==> AllColumns(events)[i] == Columns(events[i])
  {
    if events != [] { AllColumnsAt(events[1..]); }
  }

  /** Read by a reader, the export is the header and, row by row, the events it was made from. */
  lemma ExportReadsEvents(events: seq<AuditEvent>) returns (rows: seq<seq<string>>)
    ensures ReadRows(Exported(events)) == Some(rows) && |rows| == |events| + 1
    ensures rows[0] == ["id", "timestamp", "actor", "kind", "data_summary", "destination", "pii_flag"]
    ensures forall i :: 0 <= i < |events| ==> EventOf(rows[i + 1]) == Some(events[i])
  {
    ExportReads(events);
    AllColumnsAt(events);
    rows := [HEADER] + AllColumns(events);
    forall i | 0 <= i < |events| ensures EventOf(rows[i + 1]) == Some(events[i]) { ColumnsRead(events[i]); }
  }

  /** A reader recovers the header and all seven columns of every event. */
  lemma ExportReads(events: seq<AuditEvent>)
    ensures ReadRows(Exported(events)) == Some([HEADER] + AllColumns(events))
  {
    HeaderRow();
    HeadedReads(HEADER, HEADER_ROW, events);
  }

  lemma ColumnsInjective(a: AuditEvent, b: AuditEvent)
    requires Columns(a) == Columns(b)
    ensures a == b
  {}

  lemma {:induction false} AllColumnsInjective(a: seq<AuditEvent>, b: seq<AuditEvent>)
    requires AllColumns(a) == AllColumns(b)
    ensures a == b
  {
    if a != [] && b != [] {
      assert AllColumns(a)[0] == AllColumns(b)[0] && AllColumns(a)[1..] == AllColumns(b)[1..];
      ColumnsInjective(a[0], b[0]);
      AllColumnsInjective(a[1..], b[1..]);
    }
  }

  /** Different event lists never export to the same text. */
  lemma ExportInjective(a: seq<AuditEvent>, b: seq<AuditEvent>)
    requires Exported(a) == Exported(b)
    ensures a == b
  {
    ExportReads(a);
    ExportReads(b);
    assert ([HEADER] + AllColumns(a))[1..] == AllColumns(a);
    assert ([HEADER] + AllColumns(b))[1..] == AllColumns(b);
    AllColumnsInjective(a, b);
  }
}
