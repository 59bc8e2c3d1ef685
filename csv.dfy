/** CSV rendering of a backtrace report (`BacktraceReport::csv` and
    `BacktraceMetric::csv_write`), the escaping of the backtrace column, and
    a reader that recovers every row's fields from the text. */
module Csv {
  import opened Wrappers
  import opened Strings
  import opened Backtraces

  // ---------------------------------------------------------------------
  // Escaping of the quoted backtrace column

  /** `str::replace` for a one-character pattern. */
  function ReplaceChar(s: string, c: char, with: string): string
    decreases |s|
  {
    if |s| == 0 then []
    else (if s[0] == c then with else [s[0]]) + ReplaceChar(s[1..], c, with)
  }

  /** The column escaping, in the source's order: every backslash doubled
      first, then every newline written as backslash-n. */
  function Escape(s: string): string {
    ReplaceChar(ReplaceChar(s, '\\', "\\\\"), '\n', "\\n")
  }

  /** The reading side: a backslash followed by a backslash or by 'n'
      stands for a backslash or a newline. */
  function Unescape(s: string): string
    decreases |s|
  {
    if |s| >= 2 && s[0] == '\\' && s[1] == '\\' then ['\\'] + Unescape(s[2..])
    else if |s| >= 2 && s[0] == '\\' && s[1] == 'n' then ['\n'] + Unescape(s[2..])
    else if |s| == 0 then []
    else [s[0]] + Unescape(s[1..])
  }

  function EscapeChar(c: char): string {
    if c == '\\' then "\\\\" else if c == '\n' then "\\n" else [c]
  }

  lemma {:induction false} ReplaceCharConcat(a: string, b: string, c: char, with: string)
    ensures ReplaceChar(a + b, c, with) == ReplaceChar(a, c, with) + ReplaceChar(b, c, with)
    decreases |a|
  {
    if |a| > 0 {
      assert (a + b)[0] == a[0];
      assert (a + b)[1..] == a[1..] + b;
      ReplaceCharConcat(a[1..], b, c, with);
    } else {
      assert a + b == b;
    }
  }

  /** The two passes amount to escaping each character on its own. */
  lemma {:induction false} EscapeCons(c: char, rest: string)
    ensures Escape([c] + rest) == EscapeChar(c) + Escape(rest)
  {
    ReplaceCharConcat([c], rest, '\\', "\\\\");
    var once := ReplaceChar([c], '\\', "\\\\");
    assert ReplaceChar([c], '\\', "\\\\") == (if c == '\\' then "\\\\" else [c]) + ReplaceChar([], '\\', "\\\\");
    ReplaceCharConcat(once, ReplaceChar(rest, '\\', "\\\\"), '\n', "\\n");
    if c == '\\' {
      assert ReplaceChar("\\\\", '\n', "\\n") == "\\\\";
    } else {
      assert ReplaceChar([c], '\n', "\\n") == (if c == '\n' then "\\n" else [c]) + ReplaceChar([], '\n', "\\n");
    }
  }

  /** Escaping is undone by unescaping: the backtrace text is recoverable
      from the column. */
  lemma {:induction false} UnescapeEscape(s: string)
    ensures Unescape(Escape(s)) == s
    decreases |s|
  {
    if |s| == 0 {
      assert Escape(s) == [];
    } else {
      var c, rest := s[0], s[1..];
      assert s == [c] + rest;
      EscapeCons(c, rest);
      UnescapeEscape(rest);
      var t := Escape(rest);
      if c == '\\' {
        assert ("\\\\" + t)[2..] == t;
      } else if c == '\n' {
        assert ("\\n" + t)[2..] == t;
      } else {
        assert ([c] + t)[1..] == t;
      }
    }
  }

  /** The escaped column never holds a raw newline, so each row stays on
      one line. */
  lemma {:induction false} EscapeHasNoNewline(s: string)
    ensures '\n' !in Escape(s)
    decreases |s|
  {
    if |s| == 0 {
      assert Escape(s) == [];
    } else {
      assert s == [s[0]] + s[1..];
      EscapeCons(s[0], s[1..]);
      EscapeHasNoNewline(s[1..]);
    }
  }

  /** Why backslashes are doubled before newlines are rewritten: in the
      other order the backslash that encodes a newline is doubled too, and
      the newline is read back as a backslash and an 'n'. */
  lemma OtherOrderLosesNewline()
    ensures Unescape(ReplaceChar(ReplaceChar("\n", '\n', "\\n"), '\\', "\\\\")) == "\\n"
    ensures Unescape(Escape("\n")) == "\n"
  {
    assert ReplaceChar("\n", '\n', "\\n") == "\\n";
    assert ReplaceChar("n", '\\', "\\\\") == "n";
    assert ReplaceChar("\\n", '\\', "\\\\") == "\\\\n";
    assert Unescape("\\\\n") == ['\\'] + Unescape("n");
    UnescapeEscape("\n");
  }

  // ---------------------------------------------------------------------
  // Writing

  const Header: string := "allocated,allocations,avg_allocation,freed,total_used,backtrace\n"

  /** Renderings the model takes as given: the floating-point average
      (`{}` of an f64), the short-mode backtrace text built from the lines
      `display_short` keeps, and the `{:?}` text of a full backtrace. */
  datatype Renderers = Renderers(
    avg: BacktraceMetric -> string,
    short: seq<ShortLine> -> string,
    full: Backtrace -> string)

  /** `csv_write`: allocated, allocations, average, freed, in use. */
  function MetricFields(m: BacktraceMetric, avg: string): string {
    NatToString(m.allocatedBytes) + "," + NatToString(m.allocations) + "," + avg + ","
      + NatToString(m.freedBytes) + "," + NatToString(InUse(m))
  }

  /** The text of an entry's backtrace column before escaping. */
  function BacktraceText(e: ReportEntry, r: Renderers): string
    requires Printable(e)
  {
    if e.metric.mode.Short? then r.short(ShortLines(IsShown, e.backtrace.inner.value.frames))
    else r.full(e.backtrace.inner.value)
  }

  /** A row without its terminating newline. */
  function RowLine(e: ReportEntry, r: Renderers): string
    requires Printable(e)
  {
    MetricFields(e.metric, r.avg(e.metric)) + ",\"" + Escape(BacktraceText(e, r)) + "\""
  }

  function Rows(es: seq<ReportEntry>, r: Renderers): string
    requires forall k :: 0 <= k < |es| ==> Printable(es[k])
  {
    if |es| == 0 then [] else RowLine(es[0], r) + "\n" + Rows(es[1..], r)
  }

  /** The whole text of `BacktraceReport::csv`. */
  function CsvText(es: seq<ReportEntry>, r: Renderers): string
    requires forall k :: 0 <= k < |es| ==> Printable(es[k])
  {
    Header + Rows(es, r)
  }

  lemma {:induction false} RowsSnoc(es: seq<ReportEntry>, e: ReportEntry, r: Renderers)
    requires forall k :: 0 <= k < |es| ==> Printable(es[k])
    requires Printable(e)
    ensures Rows(es + [e], r) == Rows(es, r) + RowLine(e, r) + "\n"
    decreases |es|
  {
    if |es| == 0 {
      assert es + [e] == [e] && [e][1..] == [];
    } else {
      var t := es + [e];
      assert t[0] == es[0] && t[1..] == es[1..] + [e];
      RowsSnoc(es[1..], e, r);
      SnocAssoc(RowLine(es[0], r), Rows(es[1..], r), RowLine(e, r));
    }
  }

  lemma SnocAssoc(line: string, rest: string, last: string)
    ensures line + "\n" + (rest + last + "\n") == line + "\n" + rest + last + "\n"
  {
  }

  lemma CsvStep(report: seq<ReportEntry>, k: nat, r: Renderers, out: string)
    requires k < |report|
    requires forall j :: 0 <= j < |report| ==> Printable(report[j])
    requires out == Header + Rows(report[..k], r)
    ensures out + RowLine(report[k], r) + "\n" == Header + Rows(report[..k + 1], r)
  {
    RowsSnoc(report[..k], report[k], r);
    assert report[..k + 1] == report[..k] + [report[k]];
    AppendAssoc(Header, Rows(report[..k], r), RowLine(report[k], r), "\n");
  }

  lemma AppendAssoc(h: string, a: string, b: string, c: string)
    ensures h + a + b + c == h + (a + b + c)
  {
  }

  /** `BacktraceReport::csv`: the header, then one row per entry in report
      order. Entries must have a captured stack and a mode other than None
      (the source panics otherwise). */
  method WriteCsv(report: seq<ReportEntry>, r: Renderers) returns (out: string)
    requires forall k :: 0 <= k < |report| ==> Printable(report[k])
    ensures out == CsvText(report, r)
  {
    out := Header;
    var k := 0;
    while k < |report|
      invariant 0 <= k <= |report|
      invariant out == Header + Rows(report[..k], r)
    {
      var e := report[k];
      var text: string;
      if e.metric.mode.Short? {
        var lines := DisplayShort(e.backtrace);
        text := r.short(lines);
      } else {
        text := r.full(e.backtrace.inner.value);
      }
      assert text == BacktraceText(e, r);
      var row := MetricFields(e.metric, r.avg(e.metric));
      row := row + ",\"" + Escape(text) + "\"";
      CsvStep(report, k, r, out);
      out := out + row + "\n";
      k := k + 1;
    }
    assert report[..k] == report;
  }

  // ---------------------------------------------------------------------
  // Reading back

  /** The values one row carries. */
  datatype CsvRecord = CsvRecord(
    allocatedBytes: nat, allocations: nat, avg: string, freedBytes: nat, totalUsed: nat, backtrace: string)

  /** The record a report entry should read back as. */
  function RecordOf(e: ReportEntry, r: Renderers): CsvRecord
    requires Printable(e)
  {
    CsvRecord(e.metric.allocatedBytes, e.metric.allocations, r.avg(e.metric),
              e.metric.freedBytes, InUse(e.metric), BacktraceText(e, r))
  }

  /** Reads the quoted last column. */
  function ParseQuoted(q: string): Option<string> {
    if |q| >= 2 && q[0] == '"' && q[|q| - 1] == '"' then Some(Unescape(q[1..|q| - 1])) else Option.None
  }

  /** Reads one row: five comma-terminated fields, then the quoted
      backtrace, which may itself contain commas. */
  function ParseRow(line: string): Option<CsvRecord> {
    match SplitFirst(line, ',')
    case None => Option.None
    case Some(p1) =>
      match SplitFirst(p1.1, ',')
      case None => Option.None
      case Some(p2) =>
        match SplitFirst(p2.1, ',')
        case None => Option.None
        case Some(p3) =>
          match SplitFirst(p3.1, ',')
          case None => Option.None
          case Some(p4) =>
            match SplitFirst(p4.1, ',')
            case None => Option.None
            case Some(p5) =>
              match (ParseNat(p1.0), ParseNat(p2.0), ParseNat(p4.0), ParseNat(p5.0), ParseQuoted(p5.1))
              case (Some(a), Some(n), Some(f), Some(u), Some(b)) => Some(CsvRecord(a, n, p3.0, f, u, b))
              case _ => Option.None
  }

  /** Reads newline-terminated rows until the text ends. */
  function ParseRows(s: string): Option<seq<CsvRecord>>
    decreases |s|
  {
    if |s| == 0 then Some([])
    else match SplitFirst(s, '\n')
      case None => Option.None
      case Some(p) =>
        match (ParseRow(p.0), ParseRows(p.1))
        case (Some(rec), Some(recs)) => Some([rec] + recs)
        case _ => Option.None
  }

  /** Reads a whole CSV text: the exact header, then the rows. */
  function ParseCsv(s: string): Option<seq<CsvRecord>> {
    if StartsWith(s, Header) then ParseRows(s[|Header|..]) else Option.None
  }

  /** A column that needs no quoting: no comma and no newline. */
  predicate PlainField(s: string) {
    ',' !in s && '\n' !in s
  }

  /** A decimal has nothing the escaping of `csv` reacts to: no comma, no
      newline and no quote. */
  lemma DecimalIsPlain(n: nat)
    ensures PlainField(NatToString(n)) && '"' !in NatToString(n)
  {
    var s := NatToString(n);
    assert forall k :: 0 <= k < |s| ==> IsDigit(s[k]);
  }

  function Quote(s: string): string {
    "\"" + s + "\""
  }

  /** A row as five comma-terminated fields followed by the quoted column. */
  lemma RowLineShape(e: ReportEntry, r: Renderers)
    requires Printable(e)
    ensures RowLine(e, r) ==
      Fields(NatToString(e.metric.allocatedBytes), NatToString(e.metric.allocations), r.avg(e.metric),
             NatToString(e.metric.freedBytes), NatToString(InUse(e.metric)), Quote(Escape(BacktraceText(e, r))))
  {
    var m := e.metric;
    JoinedFields(NatToString(m.allocatedBytes), NatToString(m.allocations), r.avg(m),
                 NatToString(m.freedBytes), NatToString(InUse(m)), Escape(BacktraceText(e, r)));
  }

  /** The text written by `csv_write` and the `,"..."` after it, regrouped
      field by field. */
  lemma JoinedFields(a: string, n: string, v: string, f: string, u: string, esc: string)
    ensures a + "," + n + "," + v + "," + f + "," + u + ",\"" + esc + "\"" == Fields(a, n, v, f, u, Quote(esc))
  {
    var q := Quote(esc);
    calc {
      a + "," + n + "," + v + "," + f + "," + u + ",\"" + esc + "\"";
      { assert ",\"" + esc + "\"" == [','] + q; }
      (a + "," + n + "," + v + "," + f + "," + u) + ([','] + q);
      a + [','] + (n + [','] + (v + [','] + (f + [','] + (u + [','] + q))));
    }
  }

  lemma RowLineHasNoNewline(e: ReportEntry, r: Renderers)
    requires Printable(e)
    requires PlainField(r.avg(e.metric))
    ensures '\n' !in RowLine(e, r)
  {
    var m := e.metric;
    DecimalIsPlain(m.allocatedBytes); DecimalIsPlain(m.allocations);
    DecimalIsPlain(m.freedBytes); DecimalIsPlain(InUse(m));
    EscapeHasNoNewline(BacktraceText(e, r));
    RowLineShape(e, r);
  }

  /** Five comma-terminated fields followed by `last`. */
  function Fields(a: string, n: string, v: string, f: string, u: string, last: string): string {
    a + [','] + (n + [','] + (v + [','] + (f + [','] + (u + [','] + last))))
  }

  lemma ParseFields(al: nat, n: nat, v: string, f: nat, u: nat, text: string)
    requires PlainField(v)
    ensures ParseRow(Fields(NatToString(al), NatToString(n), v, NatToString(f), NatToString(u), Quote(Escape(text))))
         == Some(CsvRecord(al, n, v, f, u, text))
  {
    var q := Quote(Escape(text));
    DecimalIsPlain(al); DecimalIsPlain(n); DecimalIsPlain(f); DecimalIsPlain(u);
    NatToStringRoundTrip(al); NatToStringRoundTrip(n);
    NatToStringRoundTrip(f); NatToStringRoundTrip(u);
    assert q[1..|q| - 1] == Escape(text);
    UnescapeEscape(text);
    ParseSplitFields(NatToString(al), NatToString(n), v, NatToString(f), NatToString(u), q,
                     CsvRecord(al, n, v, f, u, text));
  }

  /** Six fields whose first five hold no comma read back field by field. */
  lemma ParseSplitFields(sa: string, sn: string, v: string, sf: string, su: string, q: string, rec: CsvRecord)
    requires ',' !in sa && ',' !in sn && ',' !in v && ',' !in sf && ',' !in su
    requires ParseNat(sa) == Some(rec.allocatedBytes) && ParseNat(sn) == Some(rec.allocations)
    requires v == rec.avg
    requires ParseNat(sf) == Some(rec.freedBytes) && ParseNat(su) == Some(rec.totalUsed)
    requires ParseQuoted(q) == Some(rec.backtrace)
    ensures ParseRow(Fields(sa, sn, v, sf, su, q)) == Some(rec)
  {
    var t4 := su + [','] + q;
    var t3 := sf + [','] + t4;
    var t2 := v + [','] + t3;
    var t1 := sn + [','] + t2;
    SplitFirstOf(sa, ',', t1);
    SplitFirstOf(sn, ',', t2);
    SplitFirstOf(v, ',', t3);
    SplitFirstOf(sf, ',', t4);
    SplitFirstOf(su, ',', q);
  }

  lemma RowLineParses(e: ReportEntry, r: Renderers)
    requires Printable(e)
    requires PlainField(r.avg(e.metric))
    ensures ParseRow(RowLine(e, r)) == Some(RecordOf(e, r))
  {
    RowLineShape(e, r);
    var m := e.metric;
    ParseFields(m.allocatedBytes, m.allocations, r.avg(m), m.freedBytes, InUse(m), BacktraceText(e, r));
  }

  function RecordsOf(es: seq<ReportEntry>, r: Renderers): (recs: seq<CsvRecord>)
    requires forall k :: 0 <= k < |es| ==> Printable(es[k])
    ensures |recs| == |es|
    ensures forall k :: 0 <= k < |es| ==> recs[k] == RecordOf(es[k], r)
    decreases |es|
  {
    if |es| == 0 then [] else [RecordOf(es[0], r)] + RecordsOf(es[1..], r)
  }

  lemma {:induction false} RowsParse(es: seq<ReportEntry>, r: Renderers)
    requires forall k :: 0 <= k < |es| ==> Printable(es[k]) && PlainField(r.avg(es[k].metric))
    ensures ParseRows(Rows(es, r)) == Some(RecordsOf(es, r))
    decreases |es|
  {
    if |es| == 0 {
      assert Rows(es, r) == [];
    } else {
      RowLineParses(es[0], r);
      RowLineHasNoNewline(es[0], r);
      RowsParse(es[1..], r);
      var line := RowLine(es[0], r);
      var rest := Rows(es[1..], r);
      assert Rows(es, r) == line + ['\n'] + rest;
      ParseRowsCons(line, rest, RecordOf(es[0], r), RecordsOf(es[1..], r));
    }
  }

  /** A row without a raw newline, its newline and readable rows after it
      read back as that row's record in front of theirs. */
  lemma ParseRowsCons(line: string, rest: string, rec: CsvRecord, recs: seq<CsvRecord>)
    requires '\n' !in line && ParseRow(line) == Some(rec) && ParseRows(rest) == Some(recs)
    ensures ParseRows(line + ['\n'] + rest) == Some([rec] + recs)
  {
    SplitFirstOf(line, '\n', rest);
  }

  /** The CSV text starts with the exact header, and reading it back gives,
      row by row in report order, each entry's allocated bytes, allocation
      count, average text, freed bytes, bytes in use and backtrace text. */
  lemma CsvRoundTrip(es: seq<ReportEntry>, r: Renderers)
    requires forall k :: 0 <= k < |es| ==> Printable(es[k]) && PlainField(r.avg(es[k].metric))
    ensures StartsWith(CsvText(es, r), Header)
    ensures ParseCsv(CsvText(es, r)) == Some(RecordsOf(es, r))
  {
    StartsWithConcat(Header, Rows(es, r));
    RowsParse(es, r);
  }

  /** The CSV text has one line per entry after the header: its newlines are
      exactly the header's and one per row. */
  lemma {:induction false} RowsNewlines(es: seq<ReportEntry>, r: Renderers)
    requires forall k :: 0 <= k < |es| ==> Printable(es[k]) && PlainField(r.avg(es[k].metric))
    ensures multiset(Rows(es, r))['\n'] == |es|
    decreases |es|
  {
    if |es| > 0 {
      RowLineHasNoNewline(es[0], r);
      RowsNewlines(es[1..], r);
      NewlineCount(RowLine(es[0], r), Rows(es[1..], r));
    }
  }

  lemma NewlineCount(line: string, rest: string)
    requires '\n' !in line
    ensures multiset(line + "\n" + rest)['\n'] == multiset(rest)['\n'] + 1
  {
    assert multiset(line)['\n'] == 0;
  }
}
