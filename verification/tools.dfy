/** The inventory tools (`mytools.py`): turning classified items into new
    ledger rows, pruning stale flagged rows, and merging new stock. */
module Tools {
  import opened Wrappers
  import opened Calendar
  import opened DateText
  import opened JsonValue
  import opened Sequences
  import opened Ledger

  /** A row of the shelf-life reference table `raw_food_db.csv`. */
  datatype ReferenceItem = ReferenceItem(name: string, shelfLife: int, storage: string)

  /** Shelf life and storage given to a grocery missing from the reference table. */
  const DefaultShelfLife := 2

  /** One formatted item: its new row and the expiry day (`exp`) that the
      next item may inherit. */
  datatype Intake = Intake(row: Row, expiry: Day)

  /** `v[key]`: a KeyError on a dictionary without the key, a TypeError on
      anything that is not a dictionary. */
  function Get(v: Json, key: string): (r: Result<Json, Error>)
    ensures r.Ok? <==> v.JObj? && key in v.fields
    ensures r.Ok? ==> r.value == v.fields[key]
  {
    match v
    case JObj(m) => if key in m then Ok(m[key]) else Err(KeyError(key))
    case _ => Err(TypeError(TypeName(v)))
  }

  /** `pd.to_datetime(v, format="%d-%m-%Y")` on a value of the item. */
  function ParseJsonDate(v: Json): (r: Result<Day, Error>)
    ensures r.Ok? <==> v.JStr? && ParseDay(v.s).Some?
    ensures r.Ok? ==> InRange(r.value) && ParseDay(v.s) == Some(r.value)
  {
    match v
    case JStr(s) => if ParseDay(s).Some? then Ok(ParseDay(s).value) else Err(DateError(s))
    case _ => Err(TypeError(TypeName(v)))
  }

  /** `+ timedelta(days = n)` on a representable day. */
  function AddDays(d: Day, n: int): (r: Result<Day, Error>)
    ensures r.Ok? <==> InRange(d + n)
    ensures r.Ok? ==> r.value == d + n
  {
    if InRange(d + n) then Ok(d + n) else Err(DateOverflow)
  }

  /** `+ relativedelta(months = n)` on a day: the same day of the month `n`
      calendar months later, clamped to the end of a shorter month. */
  function AddCalendarMonths(d: Day, n: int): (r: Result<Day, Error>)
    requires 0 <= d
    ensures r.Ok? ==> InRange(r.value)
  {
    var c := AddMonths(FromDayNumber(d), n);
    if 1 <= c.year && InRange(ToDayNumber(c)) then Ok(ToDayNumber(c)) else Err(DateOverflow)
  }

  /** Adding months gives the day of the clamped date `n` months later, and
      fails exactly when that date leaves the calendar or the timestamp
      range. */
  lemma AddCalendarMonthsDate(d: Day, n: int)
    requires 0 <= d
    ensures var c := AddMonths(FromDayNumber(d), n);
      AddCalendarMonths(d, n).Ok? <==> 1 <= c.year && InTimestampRange(c)
    ensures AddCalendarMonths(d, n).Ok? ==>
      FromDayNumber(AddCalendarMonths(d, n).value) == AddMonths(FromDayNumber(d), n)
  {
    var c := AddMonths(FromDayNumber(d), n);
    if 1 <= c.year {
      TimestampRangeDays(c);
      DayNumberRoundTrip(c);
    }
  }

  /** The reference rows carrying `name`. */
  function ReferenceRows(reference: seq<ReferenceItem>, name: string): seq<ReferenceItem> {
    Filter(reference, (r: ReferenceItem) => r.name == name)
  }

  /** Shelf life and storage of a grocery: its reference row, the two-day
      counter default, or an error when several rows carry the name
      (`int(Series)` raises). */
  function GroceryShelf(reference: seq<ReferenceItem>, name: string): (r: Result<(int, string), Error>)
    ensures r.Err? ==> r.error == AmbiguousReference(name)
  {
    var hits := ReferenceRows(reference, name);
    if hits == [] then Ok((DefaultShelfLife, StorageCounter))
    else if |hits| == 1 then Ok((hits[0].shelfLife, hits[0].storage))
    else Err(AmbiguousReference(name))
  }

  /** A name on a reference row takes the shelf life and storage of such a
      row; an absent name takes two days on the counter. */
  lemma GroceryShelfSpec(reference: seq<ReferenceItem>, name: string)
    ensures var r := GroceryShelf(reference, name);
      r.Ok? && (exists k :: 0 <= k < |reference| && reference[k].name == name) ==>
        exists k :: 0 <= k < |reference| && reference[k].name == name && r.value == (reference[k].shelfLife, reference[k].storage)
    ensures (forall k :: 0 <= k < |reference| ==> reference[k].name != name) ==>
      GroceryShelf(reference, name) == Ok((DefaultShelfLife, StorageCounter))
  {
    var hits := ReferenceRows(reference, name);
    FilterNone(reference, (r: ReferenceItem) => r.name == name);
    if hits != [] {
      assert hits[0] in reference;
    }
  }

  /** One grocery item: expiry today plus its shelf life. */
  function FormatGrocery(item: Json, reference: seq<ReferenceItem>, now: Moment): (r: Result<Intake, Error>)
    ensures r.Ok? ==> Get(item, "name") == Ok(JStr(r.value.row.name)) && r.value.row.status == StatusOpen
  {
    match Get(item, "name")
    case Err(e) => Err(e)
    case Ok(JStr(name)) => GroceryIntake(name, GroceryShelf(reference, name), now)
    case Ok(other) => Err(TypeError(TypeName(other)))
  }

  /** A grocery's row once its shelf life and storage are known. */
  function GroceryIntake(name: string, shelf: Result<(int, string), Error>, now: Moment): (r: Result<Intake, Error>)
    ensures r.Ok? ==> shelf.Ok? && r.value.expiry == now.day + shelf.value.0 && r.value.row.storage == shelf.value.1
    ensures r.Ok? ==> InRange(r.value.expiry) && r.value.row == Row(name, FormatDay(r.value.expiry), StatusOpen, shelf.value.1)
  {
    match shelf
    case Err(e) => Err(e)
    case Ok((days, storage)) =>
      var exp := now.day + days;
      if InRange(exp) then Ok(Intake(Row(name, FormatDay(exp), StatusOpen, storage), exp))
      else Err(DateOverflow)
  }

  /** The expiry a packaged item sets: its explicit date, its manufacture
      date plus a number of days or calendar months, or None when it has
      neither (and `exp` keeps its previous value). */
  function PackagedExpiry(item: Json): (r: Result<Option<Day>, Error>)
    ensures r.Ok? && r.value.Some? ==> InRange(r.value.value)
  {
    match Get(item, "expiry_date")
    case Err(e) => Err(e)
    case Ok(expiry) =>
      if Truthy(expiry) then
        (match ParseJsonDate(expiry) case Err(e) => Err(e) case Ok(d) => Ok(Some(d)))
      else
        match Get(item, "mfg_date")
        case Err(e) => Err(e)
        case Ok(mfg) =>
          if !Truthy(mfg) then Ok(None)
          else
            match Get(item, "time_denom")
            case Err(e) => Err(e)
            case Ok(denom) =>
              match ParseJsonDate(mfg)
              case Err(e) => Err(e)
              case Ok(made) =>
                match Get(item, "time_remaining")
                case Err(e) => Err(e)
                case Ok(remaining) =>
                  match ToInt(remaining)
                  case None => Err(IntError)
                  case Some(n) =>
                    var exp := if denom == JStr("d") then AddDays(made, n) else AddCalendarMonths(made, n);
                    match exp case Err(e) => Err(e) case Ok(d) => Ok(Some(d))
  }

  /** One packaged item, stored in the fridge. */
  function FormatPackaged(item: Json, carried: Option<Day>): (r: Result<Intake, Error>)
    requires carried.Some? ==> InRange(carried.value)
    ensures r.Ok? ==>
      InRange(r.value.expiry) && r.value.row.expiry == FormatDay(r.value.expiry) &&
      r.value.row.status == StatusOpen && r.value.row.storage == StorageFridge
    ensures r.Ok? && PackagedExpiry(item) == Ok(None) ==> carried == Some(r.value.expiry)
  {
    match PackagedExpiry(item)
    case Err(e) => Err(e)
    case Ok(own) =>
      match Get(item, "name")
      case Err(e) => Err(e)
      case Ok(JStr(name)) =>
        (match if own.Some? then own else carried
         case None => Err(UnboundExpiry)
         case Some(d) => Ok(Intake(Row(name, FormatDay(d), StatusOpen, StorageFridge), d)))
      case Ok(other) => Err(TypeError(TypeName(other)))
  }

  predicate IsGrocery(item: Json) {
    Get(item, "type") == Ok(JStr("grocery"))
  }

  /** A row's storage comes from the fixed vocabulary or from the reference table. */
  predicate StorageFrom(storage: string, reference: seq<ReferenceItem>) {
    storage == StorageFridge || storage == StorageCounter ||
    exists k :: 0 <= k < |reference| && reference[k].storage == storage
  }

  /** What a new row takes from the item it came from: it is open, carries
      the item's name, packaged items go to the fridge, and its storage is
      one the ledger or the reference uses. */
  predicate ItemRow(row: Row, item: Json, reference: seq<ReferenceItem>) {
    row.status == StatusOpen &&
    Get(item, "name") == Ok(JStr(row.name)) &&
    StorageFrom(row.storage, reference) &&
    (!IsGrocery(item) ==> row.storage == StorageFridge)
  }

  /** What every new row promises: it comes from its item and its expiry
      text is readable. */
  predicate FreshRow(row: Row, item: Json, reference: seq<ReferenceItem>) {
    ItemRow(row, item, reference) && ParseDay(row.expiry).Some?
  }

  /** The body of the loop in `fresh_stocks_format` for one item. */
  function FormatItem(item: Json, reference: seq<ReferenceItem>, now: Moment, carried: Option<Day>): (r: Result<Intake, Error>)
    requires carried.Some? ==> InRange(carried.value)
    ensures r.Ok? ==> InRange(r.value.expiry)
    ensures Get(item, "type").Err? ==> r.Err?
  {
    match Get(item, "type")
    case Err(e) => Err(e)
    case Ok(kind) =>
      if kind == JStr("grocery") then FormatGrocery(item, reference, now) else FormatPackaged(item, carried)
  }

  /** Every formatted row is fresh, and its expiry text reads back as the
      day handed to the next item. */
  lemma FormatItemFresh(item: Json, reference: seq<ReferenceItem>, now: Moment, carried: Option<Day>)
    requires carried.Some? ==> InRange(carried.value)
    requires FormatItem(item, reference, now, carried).Ok?
    ensures var x := FormatItem(item, reference, now, carried).value;
      FreshRow(x.row, item, reference) && ParseDay(x.row.expiry) == Some(x.expiry)
  {
    var x := FormatItem(item, reference, now, carried).value;
    FormatItemCases(item, reference, now, carried);
    if IsGrocery(item) {
      GroceryFresh(item, reference, now);
    } else {
      PackagedFresh(item, carried);
    }
    ParseFormatDay(x.expiry);
  }

  /** A grocery row is open, named after the item, dated by its expiry, and
      stored as the reference table or the default says. */
  lemma GroceryFresh(item: Json, reference: seq<ReferenceItem>, now: Moment)
    requires FormatGrocery(item, reference, now).Ok?
    ensures var x := FormatGrocery(item, reference, now).value;
      x.row.status == StatusOpen && Get(item, "name") == Ok(JStr(x.row.name)) &&
      StorageFrom(x.row.storage, reference) && InRange(x.expiry) && x.row.expiry == FormatDay(x.expiry)
  {
    GroceryShelfSpec(reference, Get(item, "name").value.s);
  }

  /** A packaged row is open, named after the item, dated by its expiry and
      kept in the fridge. */
  lemma PackagedFresh(item: Json, carried: Option<Day>)
    requires carried.Some? ==> InRange(carried.value)
    requires FormatPackaged(item, carried).Ok?
    ensures var x := FormatPackaged(item, carried).value;
      x.row.status == StatusOpen && Get(item, "name") == Ok(JStr(x.row.name)) &&
      x.row.storage == StorageFridge && InRange(x.expiry) && x.row.expiry == FormatDay(x.expiry)
  {
  }

  /** `fresh_stocks_format`'s loop as a recursion: one row per item, in
      order, `exp` flowing from each item to the next; the first failing
      item fails the batch. */
  function FormatItems(items: seq<Json>, reference: seq<ReferenceItem>, now: Moment, carried: Option<Day>): (r: Result<seq<Row>, Error>)
    requires carried.Some? ==> InRange(carried.value)
    ensures r.Ok? ==> |r.value| == |items|
    decreases |items|
  {
    if items == [] then Ok([])
    else
      match FormatItem(items[0], reference, now, carried)
      case Err(e) => Err(e)
      case Ok(x) =>
        match FormatItems(items[1..], reference, now, Some(x.expiry))
        case Err(e) => Err(e)
        case Ok(rest) => Ok([x.row] + rest)
  }

  /** One fresh row per item, in order. */
  lemma {:induction false} FormatItemsFresh(items: seq<Json>, reference: seq<ReferenceItem>, now: Moment, carried: Option<Day>)
    requires carried.Some? ==> InRange(carried.value)
    ensures var r := FormatItems(items, reference, now, carried);
      r.Ok? ==> |r.value| == |items| && forall i :: 0 <= i < |items| ==> FreshRow(r.value[i], items[i], reference)
    decreases |items|
  {
    if items != [] && FormatItem(items[0], reference, now, carried).Ok? {
      var x := FormatItem(items[0], reference, now, carried).value;
      FormatItemFresh(items[0], reference, now, carried);
      FormatItemsFresh(items[1..], reference, now, Some(x.expiry));
      var rest := FormatItems(items[1..], reference, now, Some(x.expiry));
      if rest.Ok? {
        PairwiseCons(x.row, rest.value, items, (row, item) => FreshRow(row, item, reference));
      }
    }
  }

  /** A pairwise property of two sequences survives putting a related pair
      in front. */
  lemma PairwiseCons<A, B>(a: A, rest: seq<A>, bs: seq<B>, related: (A, B) -> bool)
    requires bs != [] && related(a, bs[0])
    requires |rest| == |bs| - 1 && forall i :: 0 <= i < |rest| ==> related(rest[i], bs[1..][i])
    ensures forall i :: 0 <= i < |bs| ==> related(([a] + rest)[i], bs[i])
  {
    forall i | 0 <= i < |bs| ensures related(([a] + rest)[i], bs[i]) {
      if i > 0 {
        assert ([a] + rest)[i] == rest[i - 1] && bs[i] == bs[1..][i - 1];
      }
    }
  }

  /** `for item in json_data["items"]`: the items to iterate over. A
      dictionary iterates over its keys and a string over its characters,
      and either raises at `item["type"]` unless it is empty. */
  function ItemsOf(data: Json): (r: Result<seq<Json>, Error>)
    ensures Get(data, "items").Err? ==> r.Err?
    ensures Get(data, "items").Ok? && Get(data, "items").value.JArr? ==> r == Ok(Get(data, "items").value.elems)
  {
    match Get(data, "items")
    case Err(e) => Err(e)
    case Ok(JArr(a)) => Ok(a)
    case Ok(JObj(m)) => if m == map[] then Ok([]) else Err(TypeError("str"))
    case Ok(JStr(s)) => if s == "" then Ok([]) else Err(TypeError("str"))
    case Ok(v) => Err(TypeError(TypeName(v)))
  }

  /** What `fresh_stocks_format(json_data)` returns. */
  function FormatBatch(data: Json, reference: seq<ReferenceItem>, now: Moment): (r: Result<seq<Row>, Error>)
    ensures r.Ok? ==> ItemsOf(data).Ok? && |r.value| == |ItemsOf(data).value|
  {
    match ItemsOf(data)
    case Err(e) => Err(e)
    case Ok(items) => FormatItems(items, reference, now, None)
  }

  /** Prefixes rows already produced to the rows still to come. */
  function Prefixed(done: seq<Row>, rest: Result<seq<Row>, Error>): Result<seq<Row>, Error> {
    match rest
    case Ok(rows) => Ok(done + rows)
    case Err(e) => Err(e)
  }

  /** One step of the loop: the first item's row followed by the rest, with
      the first item's expiry carried on. */
  lemma UnrollFormatItems(items: seq<Json>, reference: seq<ReferenceItem>, now: Moment, carried: Option<Day>)
    requires items != []
    requires carried.Some? ==> InRange(carried.value)
    ensures FormatItem(items[0], reference, now, carried).Err? ==>
      FormatItems(items, reference, now, carried) == Err(FormatItem(items[0], reference, now, carried).error)
    ensures FormatItem(items[0], reference, now, carried).Ok? ==>
      var x := FormatItem(items[0], reference, now, carried).value;
      FormatItems(items, reference, now, carried) == Prefixed([x.row], FormatItems(items[1..], reference, now, Some(x.expiry)))
  {
  }

  lemma PrefixedNothing(rest: Result<seq<Row>, Error>)
    ensures Prefixed([], rest) == rest
  {
    if rest.Ok? {
      assert [] + rest.value == rest.value;
    }
  }

  lemma PrefixedAppend(done: seq<Row>, row: Row, rest: Result<seq<Row>, Error>)
    ensures Prefixed(done, Prefixed([row], rest)) == Prefixed(done + [row], rest)
  {
    if rest.Ok? {
      assert done + ([row] + rest.value) == done + [row] + rest.value;
    }
  }

  /** `fresh_stocks_format`: the loop over the items, appending one row per
      item to a new frame and carrying `exp` across iterations. */
  method FreshStocksFormat(data: Json, reference: seq<ReferenceItem>, now: Moment) returns (r: Result<seq<Row>, Error>)
    ensures r == FormatBatch(data, reference, now)
  {
    var items := ItemsOf(data);
    if items.Err? {
      return Err(items.error);
    }
    var list := items.value;
    var stock: seq<Row> := [];
    var exp: Option<Day> := None;
    var i := 0;
    assert list[i..] == list;
    PrefixedNothing(FormatItems(list, reference, now, None));
    while i < |list|
      invariant 0 <= i <= |list|
      invariant exp.Some? ==> InRange(exp.value)
      invariant FormatItems(list, reference, now, None) == Prefixed(stock, FormatItems(list[i..], reference, now, exp))
    {
      assert list[i..][0] == list[i] && list[i..][1..] == list[i + 1..];
      UnrollFormatItems(list[i..], reference, now, exp);
      var next := FormatItem(list[i], reference, now, exp);
      if next.Err? {
        return Err(next.error);
      }
      PrefixedAppend(stock, next.value.row, FormatItems(list[i + 1..], reference, now, Some(next.value.expiry)));
      stock := stock + [next.value.row];
      exp := Some(next.value.expiry);
      i := i + 1;
    }
    assert list[i..] == [];
    assert FormatItems(list[i..], reference, now, exp) == Ok([]);
    assert stock + [] == stock;
    r := Ok(stock);
  }

  /** A failure anywhere fails the whole batch: if formatting stops with an
      error on some prefix, it stops with the same error on the whole list. */
  lemma {:induction false} FormatItemsFailsOnPrefix(items: seq<Json>, k: nat, reference: seq<ReferenceItem>, now: Moment, carried: Option<Day>)
    requires k <= |items|
    requires carried.Some? ==> InRange(carried.value)
    requires FormatItems(items[..k], reference, now, carried).Err?
    ensures FormatItems(items, reference, now, carried) == FormatItems(items[..k], reference, now, carried)
    decreases k
  {
    assert items[..k][0] == items[0];
    match FormatItem(items[0], reference, now, carried)
    case Err(_) =>
    case Ok(x) =>
      assert items[..k][1..] == items[1..][..k - 1];
      FormatItemsFailsOnPrefix(items[1..], k - 1, reference, now, Some(x.expiry));
  }

  // ---------------------------------------------------------------------
  // The item rules, one lemma per branch of the loop body

  /** The loop body dispatches on the item's type. */
  lemma FormatItemCases(item: Json, reference: seq<ReferenceItem>, now: Moment, carried: Option<Day>)
    requires carried.Some? ==> InRange(carried.value)
    requires Get(item, "type").Ok?
    ensures IsGrocery(item) ==> FormatItem(item, reference, now, carried) == FormatGrocery(item, reference, now)
    ensures !IsGrocery(item) ==> FormatItem(item, reference, now, carried) == FormatPackaged(item, carried)
  {
  }

  /** A packaged item with a date of its own gets a fridge row at that date. */
  lemma FormatPackagedOwn(item: Json, name: string, carried: Option<Day>)
    requires carried.Some? ==> InRange(carried.value)
    requires PackagedExpiry(item).Ok? && PackagedExpiry(item).value.Some?
    requires Get(item, "name") == Ok(JStr(name))
    ensures var d := PackagedExpiry(item).value.value;
      FormatPackaged(item, carried) == Ok(Intake(Row(name, FormatDay(d), StatusOpen, StorageFridge), d))
  {
  }

  /** Without a truthy expiry, a truthy manufacture date plus the remaining
      count in days or months. */
  lemma PackagedExpiryFromManufacture(item: Json, made: string, n: int)
    requires Get(item, "expiry_date").Ok? && !Truthy(Get(item, "expiry_date").value)
    requires Get(item, "mfg_date") == Ok(JStr(made)) && ParseDay(made).Some?
    requires Get(item, "time_remaining").Ok? && ToInt(Get(item, "time_remaining").value) == Some(n) && Get(item, "time_denom").Ok?
    ensures var m := ParseDay(made).value;
      var exp := if Get(item, "time_denom").value == JStr("d") then AddDays(m, n) else AddCalendarMonths(m, n);
      PackagedExpiry(item) == (match exp case Err(e) => Err(e) case Ok(d) => Ok(Some(d)))
  {
    assert Truthy(JStr(made));
    assert ParseJsonDate(JStr(made)) == Ok(ParseDay(made).value);
  }

  /** A grocery named in the reference table expires its shelf life after
      today and takes the table's storage. */
  lemma GroceryFromReference(item: Json, reference: seq<ReferenceItem>, now: Moment, k: nat)
    requires k < |reference| && forall j :: 0 <= j < |reference| && reference[j].name == reference[k].name ==> j == k
    requires Get(item, "name") == Ok(JStr(reference[k].name))
    requires InRange(now.day + reference[k].shelfLife)
    ensures FormatGrocery(item, reference, now) ==
      Ok(Intake(Row(reference[k].name, FormatDay(now.day + reference[k].shelfLife), StatusOpen, reference[k].storage),
                now.day + reference[k].shelfLife))
  {
    ShelfOfOnlyHit(reference, k);
    GroceryNamed(item, reference[k].name, reference, now);
    GroceryWithShelf(reference[k].name, now, reference[k].shelfLife, reference[k].storage);
  }

  /** A grocery's row is the one its shelf life and storage give. */
  lemma GroceryNamed(item: Json, name: string, reference: seq<ReferenceItem>, now: Moment)
    requires Get(item, "name") == Ok(JStr(name))
    ensures FormatGrocery(item, reference, now) == GroceryIntake(name, GroceryShelf(reference, name), now)
  {
  }

  /** A shelf life that keeps the grocery in range gives a row dated `d`. */
  lemma GroceryWithShelf(name: string, now: Moment, days: int, storage: string)
    requires InRange(now.day + days)
    ensures GroceryIntake(name, Ok((days, storage)), now) ==
      Ok(Intake(Row(name, FormatDay(now.day + days), StatusOpen, storage), now.day + days))
  {
  }

  lemma ShelfOfOnlyHit(reference: seq<ReferenceItem>, k: nat)
    requires k < |reference| && forall j :: 0 <= j < |reference| && reference[j].name == reference[k].name ==> j == k
    ensures GroceryShelf(reference, reference[k].name) == Ok((reference[k].shelfLife, reference[k].storage))
  {
    OnlyHit(reference, k);
  }

  /** With the name on exactly one reference row, that row is the only hit. */
  lemma {:induction false} OnlyHit(reference: seq<ReferenceItem>, k: nat)
    requires k < |reference| && forall j :: 0 <= j < |reference| && reference[j].name == reference[k].name ==> j == k
    ensures ReferenceRows(reference, reference[k].name) == [reference[k]]
  {
    var name := reference[k].name;
    FilterOnly(reference, (r: ReferenceItem) => r.name == name, k);
  }

  /** A grocery missing from the reference table expires two days after
      today and is stored on the counter. */
  lemma GroceryByDefault(item: Json, name: string, reference: seq<ReferenceItem>, now: Moment)
    requires Get(item, "name") == Ok(JStr(name))
    requires forall k :: 0 <= k < |reference| ==> reference[k].name != name
    requires InRange(now.day + DefaultShelfLife)
    ensures FormatGrocery(item, reference, now) ==
      Ok(Intake(Row(name, FormatDay(now.day + 2), StatusOpen, StorageCounter), now.day + 2))
  {
    GroceryShelfSpec(reference, name);
    GroceryNamed(item, name, reference, now);
    GroceryWithShelf(name, now, DefaultShelfLife, StorageCounter);
  }

  /** A packaged item with a truthy expiry keeps that date, rendered as
      `DD-MM-YYYY`; canonical text comes through unchanged. */
  lemma PackagedWithExpiry(item: Json, name: string, expiry: string, carried: Option<Day>)
    requires carried.Some? ==> InRange(carried.value)
    requires Get(item, "name") == Ok(JStr(name))
    requires Get(item, "expiry_date") == Ok(JStr(expiry)) && ParseDay(expiry).Some?
    ensures FormatPackaged(item, carried).Ok?
    ensures FormatPackaged(item, carried).value.expiry == ParseDay(expiry).value
    ensures FormatPackaged(item, carried).value.row.storage == StorageFridge
    ensures Canonical(expiry) ==> FormatPackaged(item, carried).value.row.expiry == expiry
  {
    assert PackagedExpiry(item) == Ok(Some(ParseDay(expiry).value));
    FormatPackagedOwn(item, name, carried);
    if Canonical(expiry) {
      FormatParseDay(expiry);
    }
  }

  /** Without an expiry date, a manufacture date plus `time_remaining` (as
      `int()` reads it: an integer, a truncated float, a boolean or decimal
      text) days when `time_denom` is "d", calendar months otherwise. */
  lemma PackagedFromManufacture(item: Json, made: string, n: int, carried: Option<Day>)
    requires carried.Some? ==> InRange(carried.value)
    requires Get(item, "name").Ok? && Get(item, "name").value.JStr?
    requires Get(item, "expiry_date").Ok? && !Truthy(Get(item, "expiry_date").value)
    requires Get(item, "mfg_date") == Ok(JStr(made)) && ParseDay(made).Some?
    requires Get(item, "time_remaining").Ok? && ToInt(Get(item, "time_remaining").value) == Some(n) && Get(item, "time_denom").Ok?
    ensures var r := FormatPackaged(item, carried);
      var m := ParseDay(made).value;
      var c := AddMonths(FromDayNumber(m), n);
      if Get(item, "time_denom").value == JStr("d") then
        (r.Ok? <==> InRange(m + n)) && (r.Ok? ==> r.value.expiry == m + n)
      else
        (r.Ok? <==> 1 <= c.year && InTimestampRange(c)) && (r.Ok? ==> FromDayNumber(r.value.expiry) == c)
  {
    PackagedExpiryFromManufacture(item, made, n);
    if Get(item, "time_denom").value != JStr("d") {
      AddCalendarMonthsDate(ParseDay(made).value, n);
    }
    if PackagedExpiry(item).Ok? {
      FormatPackagedOwn(item, Get(item, "name").value.s, carried);
    }
  }

  /** A packaged item with neither date reuses the expiry of the item before
      it; as the first item it fails (Python's UnboundLocalError). */
  lemma PackagedWithoutDates(item: Json, name: string, carried: Option<Day>)
    requires carried.Some? ==> InRange(carried.value)
    requires Get(item, "name") == Ok(JStr(name))
    requires Get(item, "expiry_date").Ok? && !Truthy(Get(item, "expiry_date").value)
    requires Get(item, "mfg_date").Ok? && !Truthy(Get(item, "mfg_date").value)
    ensures carried.None? ==> FormatPackaged(item, carried) == Err(UnboundExpiry)
    ensures carried.Some? ==>
      FormatPackaged(item, carried) ==
        Ok(Intake(Row(name, FormatDay(carried.value), StatusOpen, StorageFridge), carried.value))
  {
    assert PackagedExpiry(item) == Ok(None);
  }

  /** A manufacture date plus `n` days that stay in range expires on that
      day: a fridge row dated `d`, written `DD-MM-YYYY`. */
  lemma PackagedDays(item: Json, name: string, made: string, n: int, carried: Option<Day>, d: Day)
    requires carried.Some? ==> InRange(carried.value)
    requires Get(item, "name") == Ok(JStr(name))
    requires Get(item, "expiry_date").Ok? && !Truthy(Get(item, "expiry_date").value)
    requires Get(item, "mfg_date") == Ok(JStr(made)) && ParseDay(made).Some?
    requires Get(item, "time_remaining").Ok? && ToInt(Get(item, "time_remaining").value) == Some(n) && Get(item, "time_denom") == Ok(JStr("d"))
    requires d == ParseDay(made).value + n && InRange(d)
    ensures FormatPackaged(item, carried) == Ok(Intake(Row(name, FormatDay(d), StatusOpen, StorageFridge), d))
  {
    PackagedDaysExpiry(item, made, n);
    PackagedOwnExpiry(item, name, carried, d);
  }

  /** A packaged item whose own expiry is `d` becomes a fridge row dated `d`. */
  lemma PackagedOwnExpiry(item: Json, name: string, carried: Option<Day>, d: Day)
    requires carried.Some? ==> InRange(carried.value)
    requires PackagedExpiry(item) == Ok(Some(d)) && Get(item, "name") == Ok(JStr(name))
    ensures FormatPackaged(item, carried) == Ok(Intake(Row(name, FormatDay(d), StatusOpen, StorageFridge), d))
  {
    FormatPackagedOwn(item, name, carried);
  }

  lemma PackagedDaysExpiry(item: Json, made: string, n: int)
    requires Get(item, "expiry_date").Ok? && !Truthy(Get(item, "expiry_date").value)
    requires Get(item, "mfg_date") == Ok(JStr(made)) && ParseDay(made).Some?
    requires Get(item, "time_remaining").Ok? && ToInt(Get(item, "time_remaining").value) == Some(n) && Get(item, "time_denom") == Ok(JStr("d"))
    requires InRange(ParseDay(made).value + n)
    ensures PackagedExpiry(item) == Ok(Some(ParseDay(made).value + n))
  {
    PackagedExpiryFromManufacture(item, made, n);
    assert AddDays(ParseDay(made).value, n) == Ok(ParseDay(made).value + n);
  }

  /** A manufacture date written `Format(c)` plus `k` days that stay inside
      its month reads back as day `c.day + k` of that month; for instance
      14-09-2025 with 7 days left expires 21-09-2025. */
  lemma DaysWithinMonth(c: Civil, k: int)
    requires Valid(c) && c.year <= 9999 && InTimestampRange(c)
    requires 1 <= c.day + k <= DaysInMonth(c.year, c.month) && InTimestampRange(Civil(c.year, c.month, c.day + k))
    ensures ParseDay(Format(c)) == Some(ToDayNumber(c))
    ensures InRange(ToDayNumber(c) + k)
    ensures FormatDay(ToDayNumber(c) + k) == Format(Civil(c.year, c.month, c.day + k))
  {
    ParseFormat(c);
    TimestampRangeDays(c);
    SameMonthOffset(c, k);
    TimestampRangeDays(Civil(c.year, c.month, c.day + k));
  }

  // ---------------------------------------------------------------------
  // clear_old_optimized and update_stock

  /** The keep-mask of `clear_old_optimized`: a row stays when it is not
      flagged, or when its expiry (at midnight) is not before `now`. */
  predicate KeepRow(r: Row, now: Moment)
    ensures ParseDay(r.expiry).Some? && ParseDay(r.expiry).value > now.day ==> KeepRow(r, now)
    ensures r.status == StatusFlagged && ParseDay(r.expiry).Some? && ParseDay(r.expiry).value < now.day ==> !KeepRow(r, now)
  {
    r.status != StatusFlagged ||
    (ParseDay(r.expiry).Some? && Stamp(Midnight(ParseDay(r.expiry).value)) >= Stamp(now))
  }

  predicate KeepEntry(e: Entry, now: Moment) {
    e.row.status != StatusFlagged || Stamp(Midnight(e.expiry)) >= Stamp(now)
  }

  /** `clear_old_optimized`: the kept rows in their original order, without
      the helper column; an unparseable expiry raises. */
  function ClearOld(rows: seq<Row>, now: Moment): (r: Result<seq<Row>, Error>)
    ensures r.Err? ==> r.error.DateError?
    ensures r.Ok? ==> |r.value| <= |rows|
  {
    match ParseExpiries(rows)
    case Err(e) => Err(e)
    case Ok(es) => Ok(RowsOf(Filter(es, (e: Entry) => KeepEntry(e, now))))
  }

  /** Pruning fails exactly when some expiry does not parse; otherwise it
      keeps, in order, the rows the keep-mask selects. */
  lemma ClearOldSpec(rows: seq<Row>, now: Moment)
    ensures ClearOld(rows, now).Err? <==> exists i :: 0 <= i < |rows| && ParseDay(rows[i].expiry).None?
    ensures ClearOld(rows, now).Ok? ==> ClearOld(rows, now).value == Filter(rows, (x: Row) => KeepRow(x, now))
  {
    ParseExpiriesFails(rows);
    if ParseExpiries(rows).Ok? {
      KeptRowsAgree(ParseExpiries(rows).value, rows, now);
    }
  }

  lemma {:induction false} KeptRowsAgree(es: seq<Entry>, rows: seq<Row>, now: Moment)
    requires |es| == |rows|
    requires forall i :: 0 <= i < |rows| ==> es[i].row == rows[i] && ParseDay(rows[i].expiry) == Some(es[i].expiry)
    ensures RowsOf(Filter(es, (e: Entry) => KeepEntry(e, now))) == Filter(rows, (x: Row) => KeepRow(x, now))
  {
    FilterCorresponds(es, rows, (e: Entry) => KeepEntry(e, now), (x: Row) => KeepRow(x, now), (e: Entry) => e.row);
  }

  /** After midnight of day T, a flagged row is removed exactly when its
      expiry is on or before T: an item expiring today is pruned. */
  lemma KeepAfterMidnight(r: Row, now: Moment)
    requires now.micros > 0 && ParseDay(r.expiry).Some?
    ensures KeepRow(r, now) <==> r.status != StatusFlagged || ParseDay(r.expiry).value > now.day
  {
    NotPastAfterMidnight(ParseDay(r.expiry).value, now);
  }

  /** Pruning removes exactly the stale flagged rows: every kept row
      survives and every survivor was kept. */
  lemma ClearOldSelects(rows: seq<Row>, now: Moment)
    requires ClearOld(rows, now).Ok?
    ensures forall i :: 0 <= i < |rows| && KeepRow(rows[i], now) ==> rows[i] in ClearOld(rows, now).value
    ensures forall x :: x in ClearOld(rows, now).value ==> x in rows && KeepRow(x, now)
  {
    var keep := (x: Row) => KeepRow(x, now);
    ClearOldSpec(rows, now);
    forall i | 0 <= i < |rows| && KeepRow(rows[i], now) ensures rows[i] in Filter(rows, keep) {
      FilterSelects(rows, keep, i);
    }
  }

  /** Pruning keeps the surviving rows in their order: pruning a
      concatenation prunes each part. */
  lemma ClearOldKeepsOrder(rows: seq<Row>, more: seq<Row>, now: Moment)
    requires ClearOld(rows + more, now).Ok?
    ensures ClearOld(rows, now).Ok? && ClearOld(more, now).Ok?
    ensures ClearOld(rows + more, now).value == ClearOld(rows, now).value + ClearOld(more, now).value
  {
    var all := rows + more;
    ClearOldSpec(all, now);
    ClearOldSpec(rows, now);
    ClearOldSpec(more, now);
    forall i | 0 <= i < |rows| ensures ParseDay(rows[i].expiry).Some? {
      assert rows[i] == all[i];
    }
    forall i | 0 <= i < |more| ensures ParseDay(more[i].expiry).Some? {
      assert more[i] == all[|rows| + i];
    }
    FilterAppend(rows, more, (x: Row) => KeepRow(x, now));
  }

  const StockUpdatedMsg := "New Stock Updated"

  /** `update_stock`: the pruned ledger followed by the new rows, or a
      failure with the ledger unchanged. */
  function UpdateStockStep(rows: seq<Row>, data: Json, reference: seq<ReferenceItem>, now: Moment): (s: Step<Outcome>)
    ensures s.result.Done? <==> ClearOld(rows, now).Ok? && FormatBatch(data, reference, now).Ok?
    ensures s.result.Failed? ==> s.rows == rows
    ensures s.result.Done? ==> s.result.msg == StockUpdatedMsg
  {
    match ClearOld(rows, now)
    case Err(e) => Step(Failed(e), rows)
    case Ok(kept) =>
      match FormatBatch(data, reference, now)
      case Err(e) => Step(Failed(e), rows)
      case Ok(batch) => Step(Done(StockUpdatedMsg), kept + batch)
  }

  /** Merging succeeds exactly when every stored expiry parses and the batch
      formats; the new ledger is then the kept rows followed by the batch. */
  lemma UpdateStockRows(rows: seq<Row>, data: Json, reference: seq<ReferenceItem>, now: Moment)
    ensures var s := UpdateStockStep(rows, data, reference, now);
      (s.result.Done? <==>
        (forall i :: 0 <= i < |rows| ==> ParseDay(rows[i].expiry).Some?) && FormatBatch(data, reference, now).Ok?) &&
      (s.result.Done? ==> s.rows == Filter(rows, (x: Row) => KeepRow(x, now)) + FormatBatch(data, reference, now).value)
  {
    ClearOldSpec(rows, now);
  }

  /** `update_stock`: read, prune, format, concatenate, write. */
  method UpdateStock(store: InventoryFile, data: Json, reference: seq<ReferenceItem>, now: Moment) returns (r: Outcome)
    modifies store
    ensures Step(r, store.rows) == UpdateStockStep(old(store.rows), data, reference, now)
  {
    var kept := ClearOld(store.rows, now);
    if kept.Err? {
      return Failed(kept.error);
    }
    var batch := FreshStocksFormat(data, reference, now);
    if batch.Err? {
      return Failed(batch.error);
    }
    store.rows := kept.value + batch.value;
    r := Done(StockUpdatedMsg);
  }

  /** A preserved invariant: merging new stock keeps the ledger well formed,
      provided the reference table only uses the two storages. */
  lemma UpdateStockKeepsWellFormed(rows: seq<Row>, data: Json, reference: seq<ReferenceItem>, now: Moment)
    requires WellFormed(rows)
    requires forall k :: 0 <= k < |reference| ==> reference[k].storage in {StorageCounter, StorageFridge}
    ensures WellFormed(UpdateStockStep(rows, data, reference, now).rows)
  {
    if UpdateStockStep(rows, data, reference, now).result.Done? {
      UpdateStockRows(rows, data, reference, now);
      KeptWellFormed(rows, now);
      BatchWellFormed(data, reference, now);
      WellFormedAppend(Filter(rows, (x: Row) => KeepRow(x, now)), FormatBatch(data, reference, now).value);
    }
  }

  lemma KeptWellFormed(rows: seq<Row>, now: Moment)
    requires WellFormed(rows)
    ensures WellFormed(Filter(rows, (x: Row) => KeepRow(x, now)))
  {
    var kept := Filter(rows, (x: Row) => KeepRow(x, now));
    forall i | 0 <= i < |kept| ensures kept[i] in rows {
      assert kept[i] in kept;
    }
  }

  lemma BatchWellFormed(data: Json, reference: seq<ReferenceItem>, now: Moment)
    requires forall k :: 0 <= k < |reference| ==> reference[k].storage in {StorageCounter, StorageFridge}
    requires FormatBatch(data, reference, now).Ok?
    ensures WellFormed(FormatBatch(data, reference, now).value)
  {
    var items := ItemsOf(data).value;
    FormatItemsFresh(items, reference, now, None);
  }

}
