/**
  The CSV session log of drowsiness_detector.py (drowsiness_log.csv).

  The file is a sequence of lines: the header Time,EAR,Score,Alert that
  initialisation writes, and one row per processed frame that the frame loop
  appends. The CSV text encoding itself is not modelled; a line carries the
  values that would be written.
*/
module LogStore {

  /** The header's column names, in order. */
  const Columns: seq<string> := ["Time", "EAR", "Score", "Alert"]

  /** One logged frame: the timestamp, the rounded EAR, the updated score and
      "Yes" or "No" for the alert. */
  datatype Record = Record(time: string, ear: real, score: nat, alert: string)

  datatype Line = Header(columns: seq<string>) | Row(record: Record)

  /** The log file on disk: missing, or present with its lines. */
  datatype LogFile = Missing | Present(lines: seq<Line>)

  /** The lines of the file; a missing file reads as no lines. */
  function LinesOf(f: LogFile): seq<Line>
  {
    match f
    case Missing => []
    case Present(lines) => lines
  }

  /** A row per record, in the records' order. */
  function Rows(recs: seq<Record>): (ls: seq<Line>)
    ensures |ls| == |recs|
    ensures forall i :: 0 <= i < |recs| ==> ls[i] == Row(recs[i])
    decreases |recs|
  {
    if recs == [] then [] else Rows(recs[..|recs| - 1]) + [Row(recs[|recs| - 1])]
  }

  /** The records stored in a sequence of lines, header lines skipped:
      what reading the file back yields. */
  function DataRecords(ls: seq<Line>): seq<Record>
    decreases |ls|
  {
    if ls == [] then []
    else
      var last := ls[|ls| - 1];
      DataRecords(ls[..|ls| - 1]) + (if last.Row? then [last.record] else [])
  }

  /** How many header lines a sequence of lines holds. */
  function HeaderCount(ls: seq<Line>): nat
    decreases |ls|
  {
    if ls == [] then 0
    else HeaderCount(ls[..|ls| - 1]) + (if ls[|ls| - 1].Header? then 1 else 0)
  }

  /** Log initialisation: a missing file is created holding only the header;
      an existing file is left as it is, whatever it holds. */
  function Initialized(f: LogFile): (r: LogFile)
    ensures r.Present?
    ensures f.Present? ==> r == f
    ensures f.Missing? ==> |r.lines| == 1 && HeaderCount(r.lines) == 1 && r.lines[0] == Header(Columns)
  {
    match f
    case Missing =>
      assert [Header(Columns)][..0] == [];
      Present([Header(Columns)])
    case Present(_) => f
  }

  /** Appending records in the file's append mode: each record becomes a row
      after all existing lines; appending nothing leaves the file untouched,
      and appending to a missing file creates it. */
  function Appended(f: LogFile, recs: seq<Record>): (r: LogFile)
    ensures LinesOf(r) == LinesOf(f) + Rows(recs)
    ensures r.Present? <==> f.Present? || recs != []
  {
    if recs == [] then f else Present(LinesOf(f) + Rows(recs))
  }

  /** Initialising twice is initialising once. */
  lemma InitializedIdempotent(f: LogFile)
    ensures Initialized(Initialized(f)) == Initialized(f)
  {
  }

  /** Appending in two batches is appending once: earlier rows are never
      rewritten and later ones go after them. */
  lemma AppendedTwice(f: LogFile, a: seq<Record>, b: seq<Record>)
    ensures Appended(Appended(f, a), b) == Appended(f, a + b)
  {
    assert Rows(a + b) == Rows(a) + Rows(b);
  }

  lemma {:induction false} HeaderCountConcat(a: seq<Line>, b: seq<Line>)
    ensures HeaderCount(a + b) == HeaderCount(a) + HeaderCount(b)
    decreases |b|
  {
    if b == [] {
      assert a + b == a;
    } else {
      var b' := b[..|b| - 1];
      assert (a + b)[..|a + b| - 1] == a + b';
      HeaderCountConcat(a, b');
    }
  }

  lemma {:induction false} DataRecordsConcat(a: seq<Line>, b: seq<Line>)
    ensures DataRecords(a + b) == DataRecords(a) + DataRecords(b)
    decreases |b|
  {
    if b == [] {
      assert a + b == a;
    } else {
      var b' := b[..|b| - 1];
      assert (a + b)[..|a + b| - 1] == a + b';
      DataRecordsConcat(a, b');
    }
  }

  /** Rows hold no header, and reading them back yields the records,
      field for field and in order. */
  lemma {:induction false} RowsRoundTrip(recs: seq<Record>)
    ensures HeaderCount(Rows(recs)) == 0
    ensures DataRecords(Rows(recs)) == recs
    decreases |recs|
  {
    if recs != [] {
      var p := recs[..|recs| - 1];
      var ls := Rows(recs);
      assert ls[..|ls| - 1] == Rows(p);
      RowsRoundTrip(p);
      assert recs == p + [recs[|recs| - 1]];
    }
  }

  /** A log created by this session holds exactly one header, in front, then
      one row per appended record; reading it back yields the records. */
  lemma FreshLog(recs: seq<Record>)
    ensures LinesOf(Appended(Initialized(Missing), recs)) == [Header(Columns)] + Rows(recs)
    ensures HeaderCount(LinesOf(Appended(Initialized(Missing), recs))) == 1
    ensures DataRecords(LinesOf(Appended(Initialized(Missing), recs))) == recs
  {
    var ls := [Header(Columns)] + Rows(recs);
    RowsRoundTrip(recs);
    HeaderCountConcat([Header(Columns)], Rows(recs));
    DataRecordsConcat([Header(Columns)], Rows(recs));
    assert HeaderCount([Header(Columns)]) == 1 by {
      assert [Header(Columns)][..0] == [];
    }
    assert DataRecords([Header(Columns)]) == [] by {
      assert [Header(Columns)][..0] == [];
    }
  }
}
