/** The inventory ledger: the rows of `sample_inventory.csv`, the file that
    holds them, and the reading of its `expiry_dt` column that every
    operation starts with. */
module Ledger {
  import opened Wrappers
  import opened Calendar
  import opened DateText
  import opened Sequences

  /** One row of the ledger, as the text the CSV file holds. */
  datatype Row = Row(name: string, expiry: string, status: string, storage: string)

  const StatusOpen := "open"
  const StatusFlagged := "flagged"
  const StorageCounter := "counter"
  const StorageFridge := "fridge"

  /** The exceptions the pantry functions catch and return as `"error"`. */
  datatype Error =
    | KeyError(key: string)          // a dictionary key is missing
    | TypeError(detail: string)      // a value of the wrong Python type
    | DateError(text: string)        // `pd.to_datetime` rejects this text (shape, date or range)
    | DateOverflow                   // date arithmetic leaves the timestamp range
    | DeltaOverflow                  // a timestamp difference leaves int64 nanoseconds
    | IntError                       // `int(...)` rejects the value
    | UnboundExpiry                  // `exp` is read before any item assigned it
    | AmbiguousReference(name: string) // several reference rows carry this name

  /** What a mutating operation reports: `{"success": True, "msg": ...}` or
      `{"success": False, "error": ...}`. */
  datatype Outcome = Done(msg: string) | Failed(error: Error)

  /** The result of one operation together with the ledger it leaves behind. */
  datatype Step<R> = Step(result: R, rows: seq<Row>)

  /** The ledger file. Every operation reads it whole and, when it writes,
      replaces it whole. */
  class InventoryFile {
    var rows: seq<Row>

    constructor (initial: seq<Row>)
      ensures rows == initial
    {
      rows := initial;
    }
  }

  /** A row together with its parsed expiry day. */
  datatype Entry = Entry(row: Row, expiry: Day)

  /** `pd.to_datetime(df["expiry_dt"], format="%d-%m-%Y")`: the whole column is
      parsed or the call raises on the first bad value. */
  function ParseExpiries(rows: seq<Row>): (r: Result<seq<Entry>, Error>)
    ensures r.Ok? ==> |r.value| == |rows|
    ensures r.Ok? ==> forall i :: 0 <= i < |rows| ==>
              r.value[i].row == rows[i] && ParseDay(rows[i].expiry) == Some(r.value[i].expiry)
    ensures r.Err? ==> r.error.DateError?
  {
    if rows == [] then Ok([])
    else
      match ParseDay(rows[0].expiry)
      case None => Err(DateError(rows[0].expiry))
      case Some(d) =>
        match ParseExpiries(rows[1..])
        case Err(e) => Err(e)
        case Ok(es) => Ok([Entry(rows[0], d)] + es)
  }

  /** The column fails to parse exactly when some value in it does not. */
  lemma {:induction false} ParseExpiriesFails(rows: seq<Row>)
    ensures ParseExpiries(rows).Err? <==> exists i :: 0 <= i < |rows| && ParseDay(rows[i].expiry).None?
  {
    if rows != [] && ParseDay(rows[0].expiry).Some? && ParseExpiries(rows[1..]).Err? {
      ParseExpiriesFails(rows[1..]);
      var i :| 0 <= i < |rows[1..]| && ParseDay(rows[1..][i].expiry).None?;
      assert ParseDay(rows[i + 1].expiry).None?;
    }
  }

  /** The rows of entries. */
  function RowsOf(es: seq<Entry>): (rows: seq<Row>)
    ensures |rows| == |es| && forall i :: 0 <= i < |es| ==> rows[i] == es[i].row
  {
    Map(es, (e: Entry) => e.row)
  }

  /** The `name` column. */
  function Names(rows: seq<Row>): (names: seq<string>)
    ensures |names| == |rows| && forall i :: 0 <= i < |rows| ==> names[i] == rows[i].name
  {
    seq(|rows|, i requires 0 <= i < |rows| => rows[i].name)
  }

  predicate IsFlagged(r: Row) { r.status == StatusFlagged }

  /** `df.loc[df["status"] == "flagged", "name"].tolist()`. */
  function FlaggedNames(rows: seq<Row>): (names: seq<string>)
    ensures |names| <= |rows|
    ensures forall n :: n in names ==> exists r :: r in rows && IsFlagged(r) && r.name == n
  {
    Names(Filter(rows, IsFlagged))
  }

  /** The comma-joined list of flagged names that `fetch_list` and
      `routine_msg` build. */
  function FlaggedList(rows: seq<Row>): (s: string)
    ensures FlaggedNames(rows) == [] ==> s == ""
    ensures |FlaggedNames(rows)| == 1 ==> s == FlaggedNames(rows)[0]
  {
    Join(FlaggedNames(rows), ',')
  }

  /** The flagged names are those of the flagged rows, in table order. */
  lemma FlaggedNamesSpec(rows: seq<Row>, extra: seq<Row>)
    ensures FlaggedNames(rows + extra) == FlaggedNames(rows) + FlaggedNames(extra)
    ensures forall i :: 0 <= i < |rows| && IsFlagged(rows[i]) ==> rows[i].name in FlaggedNames(rows)
    ensures forall n :: n in FlaggedNames(rows) ==> exists i :: 0 <= i < |rows| && IsFlagged(rows[i]) && rows[i].name == n
  {
    FilterAppend(rows, extra, IsFlagged);
    forall i | 0 <= i < |rows| && IsFlagged(rows[i]) ensures rows[i].name in FlaggedNames(rows) {
      FilterSelects(rows, IsFlagged, i);
      var sel := Filter(rows, IsFlagged);
      var k :| 0 <= k < |sel| && sel[k] == rows[i];
      assert FlaggedNames(rows)[k] == rows[i].name;
    }
    forall n | n in FlaggedNames(rows)
      ensures exists i :: 0 <= i < |rows| && IsFlagged(rows[i]) && rows[i].name == n
    {
      var sel := Filter(rows, IsFlagged);
      var k :| 0 <= k < |sel| && FlaggedNames(rows)[k] == n;
      assert sel[k] in rows && IsFlagged(sel[k]);
      var i :| 0 <= i < |rows| && rows[i] == sel[k];
    }
  }

  /** When no name contains a comma and some row is flagged, the joined list
      splits back into exactly the flagged names. */
  lemma FlaggedListSplits(rows: seq<Row>)
    requires forall i :: 0 <= i < |rows| ==> ',' !in rows[i].name
    requires exists i :: 0 <= i < |rows| && IsFlagged(rows[i])
    ensures Split(FlaggedList(rows), ',') == FlaggedNames(rows)
  {
    var sel := Filter(rows, IsFlagged);
    FilterNone(rows, IsFlagged);
    forall p | p in FlaggedNames(rows) ensures ',' !in p {
      var k :| 0 <= k < |sel| && FlaggedNames(rows)[k] == p;
      assert sel[k] in rows;
    }
    SplitJoin(FlaggedNames(rows), ',');
  }

  /** A ledger every operation can read back: dates parse, statuses and
      storages come from their two-value vocabularies. */
  predicate WellFormed(rows: seq<Row>) {
    forall i :: 0 <= i < |rows| ==>
      ParseDay(rows[i].expiry).Some? &&
      rows[i].status in {StatusOpen, StatusFlagged} &&
      rows[i].storage in {StorageCounter, StorageFridge}
  }

  /** Well-formed ledgers stay well formed when joined. */
  lemma WellFormedAppend(rows: seq<Row>, more: seq<Row>)
    requires WellFormed(rows) && WellFormed(more)
    ensures WellFormed(rows + more)
  {
    var all := rows + more;
    forall i | |rows| <= i < |all| ensures all[i] == more[i - |rows|] {
    }
  }

  /** A well-formed ledger always parses. */
  lemma WellFormedParses(rows: seq<Row>)
    requires WellFormed(rows)
    ensures ParseExpiries(rows).Ok?
  {
  }
}
