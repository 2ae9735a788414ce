/** The heat and expiry policy of the routine agent (`agent.py`): shifting
    counter items one day earlier, flagging items close to expiry, the
    temperature decision that gates both, and the alert text. */
module Policy {
  import opened Wrappers
  import opened Calendar
  import opened DateText
  import opened Sequences
  import opened Ledger

  /** Items whose whole days to expiry are fewer than this are flagged. */
  const HorizonDays := 3
  /** Average maximum temperature (degrees Celsius) above which counter items spoil faster. */
  const ThresholdTemp: real := 20.0

  // ---------------------------------------------------------------------
  // update_expiry

  predicate OnCounter(r: Row) { r.storage == StorageCounter }

  /** The expiry after the heat adjustment: one day earlier on the counter. */
  function HeatShifted(e: Entry): Day {
    if OnCounter(e.row) then e.expiry - 1 else e.expiry
  }

  function ReRender(e: Entry): Row
    requires InRange(HeatShifted(e))
  {
    e.row.(expiry := FormatDay(HeatShifted(e)))
  }

  /** A re-rendered row keeps its name, status and storage, reads back as
      its shifted day, and is unchanged when it is not on the counter and
      its date was already canonical. */
  lemma ReRenderRow(e: Entry, row: Row)
    requires e.row == row && ParseDay(row.expiry) == Some(e.expiry) && InRange(HeatShifted(e))
    ensures var r := ReRender(e);
      r.name == row.name && r.status == row.status && r.storage == row.storage &&
      ParseDay(r.expiry) == Some(e.expiry - (if OnCounter(row) then 1 else 0)) &&
      (!OnCounter(row) && Canonical(row.expiry) ==> r == row)
  {
    ParseFormatDay(HeatShifted(e));
    if !OnCounter(row) && Canonical(row.expiry) {
      FormatParseDay(row.expiry);
    }
  }

  /** The table `update_expiry` writes: every expiry re-rendered as
      `DD-MM-YYYY` after the heat shift. It fails, writing nothing, when some
      expiry does not parse or a shifted date leaves the timestamp range. */
  function ShiftCounter(rows: seq<Row>): (r: Result<seq<Row>, Error>)
    ensures r.Ok? ==> |r.value| == |rows|
    ensures r.Err? ==> r.error.DateError? || r.error == DateOverflow
  {
    match ParseExpiries(rows)
    case Err(e) => Err(e)
    case Ok(es) =>
      if forall i :: 0 <= i < |es| ==> InRange(HeatShifted(es[i])) then
        Ok(seq(|es|, i requires 0 <= i < |es| => ReRender(es[i])))
      else
        Err(DateOverflow)
  }

  /** Every counter row moves exactly one calendar day earlier; every other
      row keeps its date (and its text, when that was already canonical);
      names, statuses, storages, row count and order are unchanged. */
  lemma ShiftCounterEffect(rows: seq<Row>)
    requires ShiftCounter(rows).Ok?
    ensures var r := ShiftCounter(rows).value;
      forall i :: 0 <= i < |rows| ==>
        r[i].name == rows[i].name && r[i].status == rows[i].status &&
        r[i].storage == rows[i].storage &&
        ParseDay(rows[i].expiry).Some? &&
        ParseDay(r[i].expiry) == Some(ParseDay(rows[i].expiry).value - (if OnCounter(rows[i]) then 1 else 0)) &&
        (!OnCounter(rows[i]) && Canonical(rows[i].expiry) ==> r[i] == rows[i])
  {
    var es := ParseExpiries(rows).value;
    assert forall i :: 0 <= i < |es| ==> InRange(HeatShifted(es[i]));
    var r := ShiftCounter(rows).value;
    forall i | 0 <= i < |rows|
      ensures r[i].name == rows[i].name && r[i].status == rows[i].status && r[i].storage == rows[i].storage
      ensures ParseDay(rows[i].expiry).Some?
      ensures ParseDay(r[i].expiry) == Some(ParseDay(rows[i].expiry).value - (if OnCounter(rows[i]) then 1 else 0))
      ensures !OnCounter(rows[i]) && Canonical(rows[i].expiry) ==> r[i] == rows[i]
    {
      ReRenderRow(es[i], rows[i]);
    }
  }

  /** A row whose date does not parse, or a counter row on the first day. */
  predicate BlocksShift(r: Row) {
    ParseDay(r.expiry).None? || (OnCounter(r) && !InRange(ParseDay(r.expiry).value - 1))
  }

  /** The shift fails exactly when some expiry does not parse or some
      counter row is already on the first representable day. */
  lemma ShiftCounterFails(rows: seq<Row>)
    ensures ShiftCounter(rows).Err? <==> exists i :: 0 <= i < |rows| && BlocksShift(rows[i])
  {
    if ShiftCounter(rows).Err? {
      FailureHasBlocker(rows);
    }
    if i :| 0 <= i < |rows| && BlocksShift(rows[i]) {
      BlockerFails(rows, i);
    }
  }

  lemma FailureHasBlocker(rows: seq<Row>)
    requires ShiftCounter(rows).Err?
    ensures exists i :: 0 <= i < |rows| && BlocksShift(rows[i])
  {
    var parsed := ParseExpiries(rows);
    ParseExpiriesFails(rows);
    if parsed.Ok? {
      var es := parsed.value;
      assert !(forall i :: 0 <= i < |es| ==> InRange(HeatShifted(es[i])));
      var i :| 0 <= i < |es| && !InRange(HeatShifted(es[i]));
      assert BlocksShift(rows[i]);
    }
  }

  lemma BlockerFails(rows: seq<Row>, i: nat)
    requires i < |rows| && BlocksShift(rows[i])
    ensures ShiftCounter(rows).Err?
  {
    var parsed := ParseExpiries(rows);
    if parsed.Ok? {
      assert !InRange(HeatShifted(parsed.value[i]));
    }
  }

  const ExpiryUpdatedMsg := "Expiry dates updated"

  function UpdateExpiryStep(rows: seq<Row>): (s: Step<Outcome>)
    ensures s.result.Done? <==> ShiftCounter(rows).Ok?
    ensures s.result.Failed? ==> s.rows == rows
  {
    match ShiftCounter(rows)
    case Ok(shifted) => Step(Done(ExpiryUpdatedMsg), shifted)
    case Err(e) => Step(Failed(e), rows)
  }

  /** `update_expiry`: read the ledger, shift, and write it back; on any
      failure nothing is written. */
  method UpdateExpiry(store: InventoryFile) returns (r: Outcome)
    modifies store
    ensures Step(r, store.rows) == UpdateExpiryStep(old(store.rows))
  {
    var shifted := ShiftCounter(store.rows);
    if shifted.Err? {
      return Failed(shifted.error);
    }
    store.rows := shifted.value;
    r := Done(ExpiryUpdatedMsg);
  }

  /** A preserved invariant: shifting keeps a ledger well formed. */
  lemma ShiftKeepsWellFormed(rows: seq<Row>)
    requires WellFormed(rows) && ShiftCounter(rows).Ok?
    ensures WellFormed(ShiftCounter(rows).value)
  {
    ShiftCounterEffect(rows);
  }

  // ---------------------------------------------------------------------
  // check_stocks

  /** `(expiry_dt - now).days < 3` for a parsed entry. */
  predicate Expiring(e: Entry, now: Moment)
    ensures e.expiry < now.day ==> Expiring(e, now)
    ensures e.expiry > now.day + HorizonDays ==> !Expiring(e, now)
  {
    WholeDaysUntil(e.expiry, now) < HorizonDays
  }

  /** The same condition on a row of text. */
  predicate ExpiringRow(r: Row, now: Moment) {
    ParseDay(r.expiry).Some? && WholeDaysUntil(ParseDay(r.expiry).value, now) < HorizonDays
  }

  /** With a time of day after midnight, the floored day difference is below
      the horizon exactly when the expiry is at most 3 days after today, so
      items expiring today, tomorrow, in 2 or in 3 days (and overdue ones)
      are flagged; at midnight exactly, only up to 2 days ahead. */
  lemma ExpiringByDays(e: Entry, now: Moment)
    ensures now.micros > 0 ==> (Expiring(e, now) <==> e.expiry - now.day <= HorizonDays)
    ensures now.micros == 0 ==> (Expiring(e, now) <==> e.expiry - now.day < HorizonDays)
  {
  }

  /** 2^63: timestamp differences are int64 nanosecond counts. */
  const Int64Bound := 0x8000_0000_0000_0000

  /** `expiry - now` in nanoseconds does not fit in an int64, so pandas'
      checked subtraction raises `OverflowError`. With today's date this
      holds for expiries more than about 292 years back. */
  predicate DeltaOverflows(expiry: Day, now: Moment)
    ensures expiry + 106752 <= now.day || now.day + 106753 <= expiry ==> DeltaOverflows(expiry, now)
    ensures -106750 <= expiry - now.day <= 106750 ==> !DeltaOverflows(expiry, now)
  {
    var delta := (Stamp(Midnight(expiry)) - Stamp(now)) * 1000;
    delta < -Int64Bound || delta >= Int64Bound
  }

  predicate Overflows(e: Entry, now: Moment) {
    DeltaOverflows(e.expiry, now)
  }

  /** The same condition on a row of text. */
  predicate OverflowsRow(r: Row, now: Moment) {
    ParseDay(r.expiry).Some? && DeltaOverflows(ParseDay(r.expiry).value, now)
  }

  function Mark(e: Entry, now: Moment): (r: Row)
    ensures r.name == e.row.name && r.expiry == e.row.expiry && r.storage == e.row.storage
    ensures IsFlagged(r) <==> IsFlagged(e.row) || Expiring(e, now)
  {
    if Expiring(e, now) then e.row.(status := StatusFlagged) else e.row
  }

  /** What `check_stocks` reports: the comma-joined names it flagged, that
      nothing matched, or the exception. */
  datatype StockCheck = FlaggedItems(checkList: string) | NothingExpiring | CheckFailed(error: Error)

  function CheckStocksStep(rows: seq<Row>, now: Moment): (s: Step<StockCheck>)
    ensures !s.result.FlaggedItems? ==> s.rows == rows
  {
    match ParseExpiries(rows)
    case Err(e) => Step(CheckFailed(e), rows)
    case Ok(es) =>
      if Filter(es, e => Overflows(e, now)) != [] then Step(CheckFailed(DeltaOverflow), rows)
      else
      var expiring := Filter(es, e => Expiring(e, now));
      if expiring == [] then
        Step(NothingExpiring, rows)
      else
        Step(FlaggedItems(Join(Names(RowsOf(expiring)), ',')),
             seq(|es|, i requires 0 <= i < |es| => Mark(es[i], now)))
  }

  /** `check_stocks` fails exactly on an unreadable expiry or on an expiry
      whose difference to now overflows. */
  lemma CheckStocksFails(rows: seq<Row>, now: Moment)
    ensures CheckStocksStep(rows, now).result.CheckFailed? <==>
      exists i :: 0 <= i < |rows| && (ParseDay(rows[i].expiry).None? || OverflowsRow(rows[i], now))
  {
    ParseExpiriesFails(rows);
    if ParseExpiries(rows).Ok? {
      OverflowsAgree(ParseExpiries(rows).value, rows, now);
    }
  }

  /** An expiry 106752 days (about 292 years) or more before today is beyond
      an int64 nanosecond difference: `check_stocks` fails and writes
      nothing. */
  lemma AncientExpiryFails(rows: seq<Row>, now: Moment, i: nat)
    requires i < |rows| && ParseDay(rows[i].expiry).Some?
    requires ParseDay(rows[i].expiry).value + 106752 <= now.day
    ensures var s := CheckStocksStep(rows, now);
      s.result.CheckFailed? && s.rows == rows &&
      ((forall j :: 0 <= j < |rows| ==> ParseDay(rows[j].expiry).Some?) ==> s.result.error == DeltaOverflow)
  {
    assert OverflowsRow(rows[i], now);
    CheckStocksFails(rows, now);
    ParseExpiriesFails(rows);
  }

  /** No parsed entry overflows exactly when no row of text does. */
  lemma OverflowsAgree(es: seq<Entry>, rows: seq<Row>, now: Moment)
    requires |es| == |rows|
    requires forall i :: 0 <= i < |rows| ==> es[i].row == rows[i] && ParseDay(rows[i].expiry) == Some(es[i].expiry)
    ensures Filter(es, e => Overflows(e, now)) == [] <==> forall i :: 0 <= i < |rows| ==> !OverflowsRow(rows[i], now)
  {
    FilterNone(es, e => Overflows(e, now));
  }

  /** `check_stocks` reports nothing exactly when every expiry reads, every
      difference to now fits, and none is within the horizon. */
  lemma CheckStocksQuiet(rows: seq<Row>, now: Moment)
    ensures CheckStocksStep(rows, now).result.NothingExpiring? <==>
      (forall i :: 0 <= i < |rows| ==> ParseDay(rows[i].expiry).Some?) &&
      (forall i :: 0 <= i < |rows| ==> !OverflowsRow(rows[i], now)) &&
      (forall i :: 0 <= i < |rows| ==> !ExpiringRow(rows[i], now))
  {
    ParseExpiriesFails(rows);
    if ParseExpiries(rows).Ok? {
      var es := ParseExpiries(rows).value;
      OverflowsAgree(es, rows, now);
      FilterNone(es, e => Expiring(e, now));
      if Filter(es, e => Expiring(e, now)) == [] {
        forall i | 0 <= i < |rows| ensures !ExpiringRow(rows[i], now) {
          assert !Expiring(es[i], now);
        }
      }
    }
  }

  /** When `check_stocks` flags, it flags exactly the expiring rows, leaves
      the others as they were, and lists the expiring names in table order. */
  lemma CheckStocksFlags(rows: seq<Row>, now: Moment)
    requires CheckStocksStep(rows, now).result.FlaggedItems?
    ensures var s := CheckStocksStep(rows, now);
      |s.rows| == |rows| &&
      (forall i :: 0 <= i < |rows| ==>
        s.rows[i] == if ExpiringRow(rows[i], now) then rows[i].(status := StatusFlagged) else rows[i]) &&
      s.result.checkList == Join(Names(Filter(rows, r => ExpiringRow(r, now))), ',')
  {
    ExpiringNamesAgree(ParseExpiries(rows).value, rows, now);
  }

  /** `check_stocks` keeps every row, in order, with its name, expiry and
      storage. */
  lemma CheckStocksKeepsColumns(rows: seq<Row>, now: Moment)
    ensures var s := CheckStocksStep(rows, now);
      |s.rows| == |rows| && forall i :: 0 <= i < |rows| ==>
        s.rows[i].name == rows[i].name && s.rows[i].expiry == rows[i].expiry &&
        s.rows[i].storage == rows[i].storage
  {
    if CheckStocksStep(rows, now).result.FlaggedItems? {
      CheckStocksFlags(rows, now);
    }
  }

  lemma {:induction false} ExpiringNamesAgree(es: seq<Entry>, rows: seq<Row>, now: Moment)
    requires |es| == |rows|
    requires forall i :: 0 <= i < |rows| ==> es[i].row == rows[i] && ParseDay(rows[i].expiry) == Some(es[i].expiry)
    ensures RowsOf(Filter(es, e => Expiring(e, now))) == Filter(rows, r => ExpiringRow(r, now))
  {
    FilterCorresponds(es, rows, e => Expiring(e, now), r => ExpiringRow(r, now), (e: Entry) => e.row);
  }

  /** `check_stocks`: the ledger is rewritten only when some row matched. */
  method CheckStocks(store: InventoryFile, now: Moment) returns (r: StockCheck)
    modifies store
    ensures Step(r, store.rows) == CheckStocksStep(old(store.rows), now)
  {
    var parsed := ParseExpiries(store.rows);
    if parsed.Err? {
      return CheckFailed(parsed.error);
    }
    var es := parsed.value;
    if Filter(es, e => Overflows(e, now)) != [] {
      return CheckFailed(DeltaOverflow);
    }
    var expiring := Filter(es, e => Expiring(e, now));
    if expiring == [] {
      return NothingExpiring;
    }
    store.rows := seq(|es|, i requires 0 <= i < |es| => Mark(es[i], now));
    r := FlaggedItems(Join(Names(RowsOf(expiring)), ','));
  }

  /** Statuses only move from open to flagged, and the ledger stays well formed. */
  lemma CheckStocksKeepsWellFormed(rows: seq<Row>, now: Moment)
    requires WellFormed(rows)
    ensures WellFormed(CheckStocksStep(rows, now).rows)
    ensures forall i :: 0 <= i < |rows| ==>
      CheckStocksStep(rows, now).rows[i].status in {rows[i].status, StatusFlagged}
  {
    var s := CheckStocksStep(rows, now);
    if s.result.FlaggedItems? {
      CheckStocksFlags(rows, now);
      assert forall i :: 0 <= i < |rows| ==> s.rows[i].expiry == rows[i].expiry && s.rows[i].storage == rows[i].storage;
    }
  }

  // ---------------------------------------------------------------------
  // check_spoilage

  /** The forecast as `fetch_weather` and `get_avg` deliver it: the average
      maximum temperature in Celsius, or the failure `fetch_weather` returned. */
  datatype Weather = Forecast(avgMaxTemp: real) | WeatherFailure(error: string)

  /** What `check_spoilage` reports. */
  datatype SpoilageReport = Checked(inventoryUpdate: bool, msg: string) | WeatherFailed(error: string)

  const InventoryUpdatedMsg := "Inventory updated"
  const NoUpdateMsg := "No Inventory update needed"

  function SpoilageStep(rows: seq<Row>, weather: Weather, now: Moment): (s: Step<SpoilageReport>)
    ensures weather.WeatherFailure? ==> s == Step(WeatherFailed(weather.error), rows)
    ensures weather.Forecast? && weather.avgMaxTemp <= ThresholdTemp ==> s == Step(Checked(false, NoUpdateMsg), rows)
    ensures weather.Forecast? ==> s.result.Checked?
    ensures s.result.Checked? && s.result.inventoryUpdate ==> weather.avgMaxTemp > ThresholdTemp
    ensures s.result.Checked? ==> s.result.msg == if s.result.inventoryUpdate then InventoryUpdatedMsg else NoUpdateMsg
  {
    match weather
    case WeatherFailure(e) => Step(WeatherFailed(e), rows)
    case Forecast(avg) =>
      if avg > ThresholdTemp then
        // the outcome of update_expiry is ignored
        var shifted := UpdateExpiryStep(rows).rows;
        var check := CheckStocksStep(shifted, now);
        var updated := check.result.FlaggedItems?;
        Step(Checked(updated, if updated then InventoryUpdatedMsg else NoUpdateMsg), check.rows)
      else
        Step(Checked(false, NoUpdateMsg), rows)
  }

  /** Whatever the forecast, the spoilage pass keeps every row, in order,
      with its name and storage. */
  lemma SpoilageKeepsColumns(rows: seq<Row>, weather: Weather, now: Moment)
    ensures var s := SpoilageStep(rows, weather, now);
      |s.rows| == |rows| && forall i :: 0 <= i < |rows| ==>
        s.rows[i].name == rows[i].name && s.rows[i].storage == rows[i].storage
  {
    if weather.Forecast? && weather.avgMaxTemp > ThresholdTemp {
      var shifted := UpdateExpiryStep(rows).rows;
      if ShiftCounter(rows).Ok? {
        ShiftCounterEffect(rows);
      }
      CheckStocksKeepsColumns(shifted, now);
    }
  }

  /** `check_spoilage`: on a hot forecast, shift then flag. */
  method CheckSpoilage(store: InventoryFile, weather: Weather, now: Moment) returns (r: SpoilageReport)
    modifies store
    ensures Step(r, store.rows) == SpoilageStep(old(store.rows), weather, now)
  {
    match weather
    case WeatherFailure(e) =>
      return WeatherFailed(e);
    case Forecast(avg) =>
      if avg > ThresholdTemp {
        var _ := UpdateExpiry(store);
        var check := CheckStocks(store, now);
        if check.FlaggedItems? {
          r := Checked(true, InventoryUpdatedMsg);
        } else {
          r := Checked(false, NoUpdateMsg);
        }
      } else {
        r := Checked(false, NoUpdateMsg);
      }
  }

  /** A row whose expiry, after the heat shift, is within the horizon. */
  predicate ExpiringAfterShift(r: Row, now: Moment) {
    ParseDay(r.expiry).Some? &&
    WholeDaysUntil(ParseDay(r.expiry).value - (if OnCounter(r) then 1 else 0), now) < HorizonDays
  }

  /** A row whose expiry, after the heat shift, is too far from now for an
      int64 nanosecond difference. */
  predicate OverflowsAfterShift(r: Row, now: Moment) {
    ParseDay(r.expiry).Some? &&
    DeltaOverflows(ParseDay(r.expiry).value - (if OnCounter(r) then 1 else 0), now)
  }

  predicate ShiftOverflows(rows: seq<Row>, now: Moment) {
    exists i :: 0 <= i < |rows| && OverflowsAfterShift(rows[i], now)
  }

  /** The hot-forecast scenario: every counter row's expiry moves one day
      earlier; unless some shifted expiry overflows the difference to now
      (then nothing is flagged and no update is reported), a row ends up
      flagged exactly when it was flagged before or its new expiry is within
      the horizon, and an update is reported exactly when some row's new
      expiry is within the horizon. */
  lemma HotForecastPass(rows: seq<Row>, avg: real, now: Moment)
    requires avg > ThresholdTemp
    requires ShiftCounter(rows).Ok?
    ensures var s := SpoilageStep(rows, Forecast(avg), now);
      |s.rows| == |rows| &&
      (forall i :: 0 <= i < |rows| ==>
        ParseDay(rows[i].expiry).Some? &&
        ParseDay(s.rows[i].expiry) == Some(ParseDay(rows[i].expiry).value - (if OnCounter(rows[i]) then 1 else 0)) &&
        (s.rows[i].status == StatusFlagged <==>
          rows[i].status == StatusFlagged || (!ShiftOverflows(rows, now) && ExpiringAfterShift(rows[i], now)))) &&
      (s.result.inventoryUpdate <==>
        !ShiftOverflows(rows, now) && exists i :: 0 <= i < |rows| && ExpiringAfterShift(rows[i], now))
  {
    var shifted := ShiftCounter(rows).value;
    ShiftCounterEffect(rows);
    ShiftedExpiring(rows, now);
    CheckStocksEffect(shifted, now);
    HotForecastChecks(rows, avg, now);
  }

  /** A hot forecast runs `check_stocks` on the shifted ledger. */
  lemma HotForecastChecks(rows: seq<Row>, avg: real, now: Moment)
    requires avg > ThresholdTemp
    requires ShiftCounter(rows).Ok?
    ensures var s := SpoilageStep(rows, Forecast(avg), now);
      var c := CheckStocksStep(ShiftCounter(rows).value, now);
      s.rows == c.rows && s.result.Checked? && (s.result.inventoryUpdate <==> c.result.FlaggedItems?)
  {
    assert UpdateExpiryStep(rows).rows == ShiftCounter(rows).value;
  }

  /** Whatever `update_expiry` does, a hot forecast then runs `check_stocks`
      on the ledger it leaves: the shifted one, or the untouched one when the
      shift failed (for instance a counter row already on the first
      representable day). */
  lemma HotForecastChecksAll(rows: seq<Row>, avg: real, now: Moment)
    requires avg > ThresholdTemp
    ensures var s := SpoilageStep(rows, Forecast(avg), now);
      var c := CheckStocksStep(UpdateExpiryStep(rows).rows, now);
      s.rows == c.rows && s.result.Checked? && (s.result.inventoryUpdate <==> c.result.FlaggedItems?)
  {
  }

  /** A shifted row is expiring, or overflows, exactly when the original row
      does after the shift. */
  lemma ShiftedExpiring(rows: seq<Row>, now: Moment)
    requires ShiftCounter(rows).Ok?
    ensures var shifted := ShiftCounter(rows).value;
      forall i :: 0 <= i < |rows| ==>
        ParseDay(shifted[i].expiry).Some? && (ExpiringRow(shifted[i], now) <==> ExpiringAfterShift(rows[i], now)) &&
        (OverflowsRow(shifted[i], now) <==> OverflowsAfterShift(rows[i], now))
  {
    ShiftCounterEffect(rows);
    ShiftedRows(rows, ShiftCounter(rows).value, now);
  }

  /** Row by row, a date moved one day earlier on the counter is expiring or
      overflows exactly when the original is after the shift. */
  lemma ShiftedRows(rows: seq<Row>, shifted: seq<Row>, now: Moment)
    requires |shifted| == |rows|
    requires forall i :: 0 <= i < |rows| ==>
      rows[i].storage == shifted[i].storage && ParseDay(rows[i].expiry).Some? &&
      ParseDay(shifted[i].expiry) == Some(ParseDay(rows[i].expiry).value - (if OnCounter(rows[i]) then 1 else 0))
    ensures forall i :: 0 <= i < |rows| ==>
      ParseDay(shifted[i].expiry).Some? && (ExpiringRow(shifted[i], now) <==> ExpiringAfterShift(rows[i], now)) &&
      (OverflowsRow(shifted[i], now) <==> OverflowsAfterShift(rows[i], now))
  {
  }

  /** On a readable ledger, `check_stocks` fails exactly when some
      difference to now overflows, and then writes nothing; otherwise it
      leaves a row flagged exactly when it was flagged or is expiring,
      changes no other column, and reports an update exactly when some row
      is expiring. */
  lemma CheckStocksEffect(rows: seq<Row>, now: Moment)
    requires forall i :: 0 <= i < |rows| ==> ParseDay(rows[i].expiry).Some?
    ensures var s := CheckStocksStep(rows, now);
      |s.rows| == |rows| &&
      (forall i :: 0 <= i < |rows| ==>
        s.rows[i].name == rows[i].name && s.rows[i].expiry == rows[i].expiry &&
        s.rows[i].storage == rows[i].storage) &&
      (s.result.CheckFailed? <==> exists i :: 0 <= i < |rows| && OverflowsRow(rows[i], now)) &&
      (s.result.CheckFailed? ==> s.rows == rows) &&
      (!s.result.CheckFailed? ==>
        (forall i :: 0 <= i < |rows| ==>
          (s.rows[i].status == StatusFlagged <==> rows[i].status == StatusFlagged || ExpiringRow(rows[i], now))) &&
        (s.result.FlaggedItems? <==> exists i :: 0 <= i < |rows| && ExpiringRow(rows[i], now)))
  {
    var s := CheckStocksStep(rows, now);
    CheckStocksFails(rows, now);
    CheckStocksQuiet(rows, now);
    if s.result.FlaggedItems? {
      CheckStocksFlags(rows, now);
    } else if !s.result.CheckFailed? {
      assert s.result.NothingExpiring?;
    }
  }

  /** A ledger with an unreadable date makes both steps fail, and the pass
      still reports success with no update. */
  lemma UnreadableLedgerReportsNoUpdate(rows: seq<Row>, avg: real, now: Moment)
    requires avg > ThresholdTemp
    requires exists i :: 0 <= i < |rows| && ParseDay(rows[i].expiry).None?
    ensures SpoilageStep(rows, Forecast(avg), now) == Step(Checked(false, NoUpdateMsg), rows)
  {
    ShiftCounterFails(rows);
  }

  // ---------------------------------------------------------------------
  // routine_msg, alert_user, routine_agent

  const AlertPrefix := "Attention from your Pantry! "
  const WeatherClause := "Due to upcoming bad weather, "
  const SpoiledSuffix := " are getting spoiled"
  const SoonSuffix := " are getting spoiled by next 2 days"

  /** The text `alert_user` sends. */
  function AlertText(checklist: string, condition: bool): (msg: string)
    ensures AlertPrefix <= msg
    ensures |msg| == |AlertPrefix| + |checklist| + (if condition then |WeatherClause| + |SpoiledSuffix| else |SoonSuffix|)
  {
    if condition then AlertPrefix + WeatherClause + checklist + SpoiledSuffix
    else AlertPrefix + checklist + SoonSuffix
  }

  /** Reads the list of names back out of an alert text. */
  function ChecklistOf(msg: string, condition: bool): Option<string> {
    var head := if condition then AlertPrefix + WeatherClause else AlertPrefix;
    var tail := if condition then SpoiledSuffix else SoonSuffix;
    if |msg| >= |head| + |tail| && msg[..|head|] == head && msg[|msg| - |tail|..] == tail
    then Some(msg[|head|..|msg| - |tail|])
    else None
  }

  /** The alert carries the list verbatim: it can be read back exactly. */
  lemma AlertRoundTrip(checklist: string, condition: bool)
    ensures ChecklistOf(AlertText(checklist, condition), condition) == Some(checklist)
  {
    var msg := AlertText(checklist, condition);
    if condition {
      assert msg == (AlertPrefix + WeatherClause) + checklist + SpoiledSuffix;
    }
  }

  /** `routine_msg`: the alert for every row currently flagged. */
  function RoutineMessage(rows: seq<Row>): (msg: string)
    ensures |msg| == |AlertPrefix| + |FlaggedList(rows)| + |SoonSuffix|
    ensures msg[..|AlertPrefix|] == AlertPrefix && msg[|msg| - |SoonSuffix|..] == SoonSuffix
    ensures msg[|AlertPrefix|..|msg| - |SoonSuffix|] == FlaggedList(rows)
  {
    AlertText(FlaggedList(rows), false)
  }

  /** With nothing flagged the routine still sends an alert, with an empty list. */
  lemma RoutineMessageWhenNothingFlagged(rows: seq<Row>)
    requires forall i :: 0 <= i < |rows| ==> !IsFlagged(rows[i])
    ensures RoutineMessage(rows) == AlertPrefix + SoonSuffix
  {
    FilterNone(rows, IsFlagged);
  }

  const RefreshedMsg := "Inventory refreshed successfully"

  datatype RoutineReport = Refreshed(msg: string) | RoutineFailed(error: string)

  /** `routine_agent`: the spoilage pass, then, whenever it succeeded, the
      alert listing every flagged row (sent through the messaging service). */
  method RoutineAgent(store: InventoryFile, weather: Weather, now: Moment) returns (r: RoutineReport, sent: Option<string>)
    modifies store
    ensures store.rows == SpoilageStep(old(store.rows), weather, now).rows
    ensures weather.WeatherFailure? ==> r == RoutineFailed(weather.error) && sent == None
    ensures weather.Forecast? ==> r == Refreshed(RefreshedMsg) && sent == Some(RoutineMessage(store.rows))
  {
    var cond := CheckSpoilage(store, weather, now);
    if cond.Checked? {
      sent := Some(RoutineMessage(store.rows));
      r := Refreshed(RefreshedMsg);
    } else {
      r := RoutineFailed(cond.error);
      sent := None;
    }
  }
}
