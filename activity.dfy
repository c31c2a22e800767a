/**
 * The staff activity log's listing and CSV export (backend/routes/activity.js).
 * `toISOString` is the parameter `iso`; the `limit` query value arrives
 * already parsed by `parseInt`.
 */
module Activity {
  import opened Wrappers
  import opened Models
  import Seqs

  const DefaultLimit: int := 50
  const ExportLimit: nat := 500
  const HeaderFields: string := "Timestamp,Action,Player,Staff,Table,Details"
  const CsvHeader: string := "Timestamp,Action,Player,Staff,Table,Details\n"

  /** ActivityLog.js; `staffName` defaults to "System" when an entry is written. */
  datatype LogEntry = LogEntry(
    actionType: string,
    playerName: Option<string>,
    staffName: Option<string>,
    tableNumber: Option<string>,
    details: Option<string>,
    createdAt: Millis)

  /** The query object: a field is present exactly when the route sets it. */
  datatype LogQuery = LogQuery(actionType: Option<string>, staffName: Option<string>)

  /** A query parameter that narrows the search: given, non-empty, and not "all". */
  predicate Narrows(param: Option<string>) {
    param.Some? && param.value != "" && param.value != "all"
  }

  function BuildQuery(actionType: Option<string>, staff: Option<string>): (q: LogQuery)
    ensures q.actionType.Some? <==> Narrows(actionType)
    ensures q.staffName.Some? <==> Narrows(staff)
    ensures q.actionType.Some? ==> q.actionType == actionType
    ensures q.staffName.Some? ==> q.staffName == staff
  {
    LogQuery(if Narrows(actionType) then actionType else None, if Narrows(staff) then staff else None)
  }

  function Matches(q: LogQuery): LogEntry -> bool {
    (e: LogEntry) =>
      && (q.actionType.None? || e.actionType == q.actionType.value)
      && (q.staffName.None? || e.staffName == q.staffName)
  }

  /** The sort key of `{ createdAt: -1 }`. */
  function NewestFirst(e: LogEntry): int {
    -e.createdAt
  }

  /**
   * `.limit(parseInt(limit))` with `limit` defaulting to 50: the store reads
   * 0 as no limit and a negative n as |n|. `None` here means unlimited.
   */
  function EffectiveLimit(limit: Option<int>): (r: Option<nat>)
    ensures limit.None? ==> r == Some(DefaultLimit as nat)
    ensures limit == Some(0) ==> r.None?
    ensures limit.Some? && limit.value != 0 ==> r.Some? && (r.value == limit.value || r.value == -limit.value)
    ensures r.Some? ==> r.value > 0
  {
    var n := limit.GetOr(DefaultLimit);
    if n == 0 then None else if n > 0 then Some(n) else Some(-n)
  }

  function Limited(s: seq<LogEntry>, limit: Option<nat>): seq<LogEntry> {
    if limit.None? then s else Seqs.Take(s, limit.value)
  }

  /** GET /: the matching entries, newest first, cut at the effective limit. */
  function Listing(logs: seq<LogEntry>, actionType: Option<string>, staff: Option<string>, limit: Option<int>): seq<LogEntry> {
    Limited(Seqs.SortBy(Seqs.Filter(logs, Matches(BuildQuery(actionType, staff))), NewestFirst), EffectiveLimit(limit))
  }

  /**
   * Every listed entry is stored and matches the filters, no more often than
   * it is stored among the matches; the list is newest first and no longer
   * than the limit; a matching entry left out is no newer than any listed
   * one; and when the list is shorter than the limit, every matching entry is
   * in it.
   */
  lemma ListingSpec(logs: seq<LogEntry>, actionType: Option<string>, staff: Option<string>, limit: Option<int>)
    ensures forall e :: e in Listing(logs, actionType, staff, limit) ==>
      e in logs && Matches(BuildQuery(actionType, staff))(e)
    ensures forall i, j :: 0 <= i < j < |Listing(logs, actionType, staff, limit)| ==>
      Listing(logs, actionType, staff, limit)[i].createdAt >= Listing(logs, actionType, staff, limit)[j].createdAt
    ensures EffectiveLimit(limit).Some? ==> |Listing(logs, actionType, staff, limit)| <= EffectiveLimit(limit).value
    ensures EffectiveLimit(limit).None? || |Listing(logs, actionType, staff, limit)| < EffectiveLimit(limit).value ==>
      forall e :: e in logs && Matches(BuildQuery(actionType, staff))(e) ==> e in Listing(logs, actionType, staff, limit)
    ensures multiset(Listing(logs, actionType, staff, limit)) <= multiset(Seqs.Filter(logs, Matches(BuildQuery(actionType, staff))))
    ensures forall e, k ::
      e in logs && Matches(BuildQuery(actionType, staff))(e) && e !in Listing(logs, actionType, staff, limit) &&
      0 <= k < |Listing(logs, actionType, staff, limit)| ==>
        e.createdAt <= Listing(logs, actionType, staff, limit)[k].createdAt
  {
    var f := Seqs.Filter(logs, Matches(BuildQuery(actionType, staff)));
    var s := Seqs.SortBy(f, NewestFirst);
    var l := Listing(logs, actionType, staff, limit);
    assert l <= s;
    forall e | e in l ensures e in logs && Matches(BuildQuery(actionType, staff))(e) {
      var k :| 0 <= k < |l| && l[k] == e;
      assert s[k] == e;
      assert e in multiset(s);
    }
    forall i, j | 0 <= i < j < |l| ensures l[i].createdAt >= l[j].createdAt {
      assert l[i] == s[i] && l[j] == s[j];
      assert NewestFirst(s[i]) <= NewestFirst(s[j]);
    }
    if EffectiveLimit(limit).None? || |l| < EffectiveLimit(limit).value {
      assert l == s;
      forall e | e in logs && Matches(BuildQuery(actionType, staff))(e) ensures e in l {
        assert e in multiset(f);
      }
    } else {
      Seqs.TopByCut(f, NewestFirst, EffectiveLimit(limit).value);
      forall e, k | e in logs && Matches(BuildQuery(actionType, staff))(e) && e !in l && 0 <= k < |l|
        ensures e.createdAt <= l[k].createdAt
      {
        assert NewestFirst(l[k]) <= NewestFirst(e);
      }
    }
  }

  /** `${v || ''}` */
  function OrEmpty(v: Option<string>): string {
    if v.None? then "" else v.value
  }

  /** One exported line: six comma-separated fields, the details in double quotes (not escaped). */
  function CsvLine(e: LogEntry, iso: Millis -> string): string {
    iso(e.createdAt) + "," + e.actionType + "," + OrEmpty(e.playerName) + "," + OrEmpty(e.staffName) + ","
      + OrEmpty(e.tableNumber) + ",\"" + OrEmpty(e.details) + "\"\n"
  }

  /** The lines of `logs`, in order. */
  function CsvLines(logs: seq<LogEntry>, iso: Millis -> string): seq<char>
    decreases |logs|
  {
    if logs == [] then [] else CsvLines(logs[..|logs| - 1], iso) + CsvLine(logs[|logs| - 1], iso)
  }

  /** The entries the export reads: the newest 500. */
  function ExportedEntries(logs: seq<LogEntry>): seq<LogEntry> {
    Seqs.Take(Seqs.SortBy(logs, NewestFirst), ExportLimit)
  }

  /**
   * The export reads stored entries only, each no more often than stored,
   * newest first, at most 500 of them, and every entry when there are no
   * more than 500.
   */
  lemma ExportedEntriesSpec(logs: seq<LogEntry>)
    ensures |ExportedEntries(logs)| <= ExportLimit
    ensures multiset(ExportedEntries(logs)) <= multiset(logs)
    ensures forall i, j :: 0 <= i < j < |ExportedEntries(logs)| ==>
      ExportedEntries(logs)[i].createdAt >= ExportedEntries(logs)[j].createdAt
    ensures |logs| <= ExportLimit ==> forall e :: e in logs ==> e in ExportedEntries(logs)
  {
    var x := ExportedEntries(logs);
    Seqs.TopBy(logs, NewestFirst, ExportLimit);
    Seqs.TopByCut(logs, NewestFirst, ExportLimit);
    forall i, j | 0 <= i < j < |x| ensures x[i].createdAt >= x[j].createdAt {
      assert NewestFirst(x[i]) <= NewestFirst(x[j]);
    }
  }

  /** The export holds the newest entries: one left out is no newer than any exported one. */
  lemma ExportedEntriesNewest(logs: seq<LogEntry>)
    ensures forall e, k :: e in logs && e !in ExportedEntries(logs) && 0 <= k < |ExportedEntries(logs)| ==>
      e.createdAt <= ExportedEntries(logs)[k].createdAt
  {
    var x := ExportedEntries(logs);
    Seqs.TopByCut(logs, NewestFirst, ExportLimit);
    forall e, k | e in logs && e !in x && 0 <= k < |x| ensures e.createdAt <= x[k].createdAt {
      assert NewestFirst(x[k]) <= NewestFirst(e);
    }
  }

  /** The lines of a longer prefix add one line at the end. */
  lemma CsvLinesSnoc(logs: seq<LogEntry>, i: nat, iso: Millis -> string)
    requires i < |logs|
    ensures CsvLines(logs[..i + 1], iso) == CsvLines(logs[..i], iso) + CsvLine(logs[i], iso)
  {
    assert logs[..i + 1][..i] == logs[..i];
  }

  /** The `forEach` loop of GET /export/csv: `csv` starts as the header and gains one line per entry, in order. */
  method AppendLines(header: string, selected: seq<LogEntry>, iso: Millis -> string) returns (csv: string)
    ensures csv == header + CsvLines(selected, iso)
  {
    csv := header;
    for i := 0 to |selected|
      invariant csv == header + CsvLines(selected[..i], iso)
    {
      var line := CsvLine(selected[i], iso);
      CsvLinesSnoc(selected, i, iso);
      csv := csv + line;
    }
    assert selected[..|selected|] == selected;
  }

  /** GET /export/csv: the header, then one line for each of the newest 500 entries. */
  method ExportCsv(logs: seq<LogEntry>, iso: Millis -> string) returns (csv: string)
    ensures csv == CsvHeader + CsvLines(ExportedEntries(logs), iso)
  {
    csv := AppendLines(CsvHeader, ExportedEntries(logs), iso);
  }

  /** Occurrences of `c` in `s`. */
  function Occurrences(s: seq<char>, c: char): nat
    decreases |s|
  {
    if s == [] then 0 else Occurrences(s[..|s| - 1], c) + (if s[|s| - 1] == c then 1 else 0)
  }

  lemma {:induction false} OccurrencesAppend(a: seq<char>, b: seq<char>, c: char)
    ensures Occurrences(a + b, c) == Occurrences(a, c) + Occurrences(b, c)
    decreases |b|
  {
    if b == [] {
      assert a + b == a;
    } else {
      var b' := b[..|b| - 1];
      assert (a + b)[..|a + b| - 1] == a + b';
      OccurrencesAppend(a, b', c);
    }
  }

  lemma {:induction false} OccurrencesNone(s: seq<char>, c: char)
    requires c !in s
    ensures Occurrences(s, c) == 0
    decreases |s|
  {
    if s != [] {
      assert forall x :: x in s[..|s| - 1] ==> x in s;
      OccurrencesNone(s[..|s| - 1], c);
    }
  }

  /** No field of the entry, its timestamp included, contains a line break. */
  predicate SingleLineFields(e: LogEntry, iso: Millis -> string) {
    && '\n' !in iso(e.createdAt) && '\n' !in e.actionType && '\n' !in OrEmpty(e.playerName)
    && '\n' !in OrEmpty(e.staffName) && '\n' !in OrEmpty(e.tableNumber) && '\n' !in OrEmpty(e.details)
  }

  /** A line of single-line fields holds exactly one line break, at its end. */
  lemma CsvLineBreaks(e: LogEntry, iso: Millis -> string)
    requires SingleLineFields(e, iso)
    ensures Occurrences(CsvLine(e, iso), '\n') == 1
    ensures CsvLine(e, iso)[|CsvLine(e, iso)| - 1] == '\n'
  {
    var body := iso(e.createdAt) + "," + e.actionType + "," + OrEmpty(e.playerName) + "," + OrEmpty(e.staffName) + ","
      + OrEmpty(e.tableNumber) + ",\"" + OrEmpty(e.details) + "\"";
    assert CsvLine(e, iso) == body + "\n";
    assert '\n' !in body;
    OccurrencesNone(body, '\n');
    OccurrencesAppend(body, "\n", '\n');
  }

  lemma {:induction false} CsvLinesBreaks(logs: seq<LogEntry>, iso: Millis -> string)
    requires forall i :: 0 <= i < |logs| ==> SingleLineFields(logs[i], iso)
    ensures Occurrences(CsvLines(logs, iso), '\n') == |logs|
    decreases |logs|
  {
    if logs != [] {
      var n := |logs| - 1;
      CsvLinesBreaks(logs[..n], iso);
      CsvLineBreaks(logs[n], iso);
      OccurrencesAppend(CsvLines(logs[..n], iso), CsvLine(logs[n], iso), '\n');
    }
  }

  /**
   * The export starts with the header, ends with a line break, and, when no
   * field holds a line break, has exactly one line per exported entry after
   * the header, at most 500 of them.
   */
  lemma ExportSpec(logs: seq<LogEntry>, iso: Millis -> string)
    ensures CsvHeader <= CsvHeader + CsvLines(ExportedEntries(logs), iso)
    ensures |ExportedEntries(logs)| <= ExportLimit
    ensures var csv := CsvHeader + CsvLines(ExportedEntries(logs), iso); csv[|csv| - 1] == '\n'
    ensures (forall e :: e in logs ==> SingleLineFields(e, iso)) ==>
      Occurrences(CsvHeader + CsvLines(ExportedEntries(logs), iso), '\n') == 1 + |ExportedEntries(logs)|
  {
    var sel := ExportedEntries(logs);
    var s := Seqs.SortBy(logs, NewestFirst);
    if sel != [] {
      var n := |sel| - 1;
      assert CsvLines(sel, iso) == CsvLines(sel[..n], iso) + CsvLine(sel[n], iso);
      assert |CsvLine(sel[n], iso)| > 0;
    }
    if forall e :: e in logs ==> SingleLineFields(e, iso) {
      forall i | 0 <= i < |sel| ensures SingleLineFields(sel[i], iso) {
        assert sel[i] == s[i];
        assert s[i] in multiset(logs);
      }
      CsvLinesBreaks(sel, iso);
      assert forall k :: 0 <= k < |HeaderFields| ==> HeaderFields[k] != '\n';
      OccurrencesNone(HeaderFields, '\n');
      assert CsvHeader == HeaderFields + "\n";
      OccurrencesAppend(HeaderFields, "\n", '\n');
      OccurrencesAppend(CsvHeader, CsvLines(sel, iso), '\n');
    }
  }
}
