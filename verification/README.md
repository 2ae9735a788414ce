# Pantry inventory lifecycle, modelled in Dafny

The pantry system keeps a ledger of food items in `sample_inventory.csv`.
Each row is `(name, expiry_dt, status, storage)`, and the expiry is stored as
`DD-MM-YYYY` text. This project models the engine that changes the ledger:

- **Intake** (`mytools.py`). Items that the vision model recognised become
  new rows.
  - A grocery expires its reference shelf life after today. When the name is
    not in the reference table, it expires two days after today and goes on
    the counter.
  - A packaged item uses its explicit expiry, or its manufacture date plus N
    days, or plus N calendar months. It goes to the fridge.
- **Prune and merge** (`mytools.py`). Stale flagged rows are removed, and the
  new rows are appended after the surviving ones.
- **Heat and expiry policy** (`agent.py`). On a hot forecast, every counter
  item expires one day earlier. Items close to expiry are then flagged.
- **Alert text** (`agent.py`). The message lists the flagged names.
- **Reply extraction** (`agent_image.py`). The JSON object is cut out of the
  vision model's free-text reply and checked for the two required keys. The
  result is then wrapped and handed to the intake.

Modules:

- `Calendar` holds the proleptic Gregorian calendar. Dates map to day numbers
  and back, with a proved round trip.
  - `AddMonths` is `relativedelta(months=n)`, including end-of-month clamping.
  - The pandas timestamp range (22-09-1677 to 11-04-2262) bounds every stored
    date.
  - "Now" is a `Moment`: a day plus microseconds since that day's midnight.
    `datetime.today()` carries a time of day, and stored expiries are
    midnights.
- `DateText` parses and formats `DD-MM-YYYY`.
  - Parsing follows strptime's field rules: `%d` and `%m` take one or two
    digits, and `%Y` takes four.
  - Formatting is zero-padded.
- `JsonValue` holds decoded JSON with the parts of Python the code relies on:
  truthiness, `int()`, `in`, and type names.
- `Sequences` provides filter, join and split.
- `Ledger` holds the rows, the exceptions that are caught and returned as
  `"error"`, and the ledger file. The file is a class whose `rows` field a
  method replaces whole. Every operation reads the file whole and, when it
  writes, replaces it whole.
- `Tools` models `mytools.py`: `fresh_stocks_format` (a loop that carries
  `exp` across items), `clear_old_optimized`, `update_stock` and `fetch_list`.
- `Policy` models `agent.py`: `update_expiry`, `check_stocks`,
  `check_spoilage`, `routine_msg`, `alert_user` and `routine_agent`.
- `ImageAgent` models `agent_image.py`.

Each mutating operation has two parts:

- a function `XStep(rows, ...)` that gives the result and the ledger left
  behind;
- a method on the file whose `ensures` ties the new `rows` to that function.

The lemmas state what each step does to each row.

Where the program's own comments and messages promise something the code does
not do, the model follows the code:

- **Flagging.** The docstring of `check_stocks` (agent.py:67) and the alert text
  (agent.py:128) speak of items expiring "by next 2 days". `check_stocks` takes
  the floored day difference between the midnight of the expiry and the current
  moment and flags it when that is below 3. After midnight, that flags every row
  with `E - T <= 3`, where E is the expiry day and T is today. So items three
  days out are flagged too (`Policy.ExpiringByDays`).
- **Pruning.** The comment in `clear_old_optimized` (mytools.py:77) keeps a
  flagged row when "the expiry date is NOT in the past". The code compares the
  midnight of the expiry with the current moment, so after midnight it keeps a
  flagged row only when `E > T`. A flagged item that expires today is removed
  (`Tools.KeepAfterMidnight`).
- **Packaged items with no dates.** A packaged item with neither date does not
  get a fresh expiry. It silently reuses the expiry computed for the item
  before it. As the first item of a batch it makes the whole batch fail
  (`Tools.PackagedWithoutDates`).
- **`check_spoilage`.** It ignores the outcome of `update_expiry`. On a hot
  forecast with an unreadable ledger, it still reports success with no update
  (`Policy.UnreadableLedgerReportsNoUpdate`).
- **`routine_agent`.** After any successful spoilage pass, it sends an alert
  even when nothing is flagged (`Policy.RoutineMessageWhenNothingFlagged`).
- **`img_process`.** The parser's own failure dictionaries (no JSON, undecodable
  JSON, missing keys) count as extracted data. They are handed to
  `update_stock`, which fails on the missing `"items"` key without writing
  (`ImageAgent.FailureDictNeverWrites`).

## Model

| member | source | states |
|---|---|---|
| Calendar.DaysInMonth | mytools.py:55 | month lengths are 28..31, and February has 29 days exactly in leap years |
| Calendar.DaysBeforeYearClosed | agent.py:58-61 | the days before year y are 365 per year plus the leap days: `p*365 + p/4 - p/100 + p/400` with p = y - 1 |
| Calendar.NextYear | agent.py:58-61 | each year adds its own length to the day count |
| Calendar.WithinYear | agent.py:58-61 | a date's day number lies within its year |
| Calendar.DayOrder | mytools.py:78 | day numbers order dates the same way as (year, month, day) |
| Calendar.FromDayNumber | agent.py:58-61 | every day number names a valid date whose day number is that number |
| Calendar.DayNumberRoundTrip | agent.py:58-61 | date to day number to date is the identity |
| Calendar.DayNumberInjective | agent.py:58-61 | distinct valid dates have distinct day numbers |
| Calendar.SameMonthOffset | mytools.py:52 | adding k days within one month is adding k to the day of the month |
| Calendar.TimestampRangeDays | mytools.py:70 | a valid date is in the pandas timestamp range exactly when its day number is representable |
| Calendar.InRangeMeans | agent.py:58-61 | the representable day numbers are those of the dates in the timestamp range |
| Calendar.AddMonths | mytools.py:55 | `relativedelta(months=n)`: the total month count grows by n, the day is clamped to the target month's length, and the date is valid iff the year is at least 1 |
| Calendar.AddZeroMonths | mytools.py:55 | adding zero months is the identity |
| Calendar.WholeDaysUntil | agent.py:71-72 | `(expiry - now).days` is the day difference, less one when now is past midnight |
| Calendar.NotPastAfterMidnight | mytools.py:71-78 | after midnight, `expiry >= now` holds exactly when the expiry day is after today |
| DateText.ParseFormat | agent.py:58-61 | formatting a date as `DD-MM-YYYY` yields canonical text that parses back to the same date |
| DateText.FormatParse | agent.py:58-61 | canonical text that parses is reproduced exactly by formatting its date |
| DateText.ParseDay | mytools.py:70 | a successfully parsed expiry is a representable timestamp day |
| DateText.ParseDayRange | mytools.py:70 | an expiry text reads as a day exactly when it parses as a date inside the timestamp range |
| DateText.FormatDay | agent.py:61 | `strftime("%d-%m-%Y")` writes canonical ten-character text |
| DateText.ParseFormatDay | agent.py:58-61 | formatting then parsing any representable day gives that day back |
| DateText.FormatParseDay | agent.py:58-61 | parsing then formatting canonical text gives the same text back |
| JsonValue.ToInt | mytools.py:52 | `int()` keeps integers, truncates floats toward zero, and raises on None, lists and dicts |
| Sequences.FilterAppend | mytools.py:81-85 | boolean-mask selection distributes over concatenation, so relative order is kept |
| Sequences.FilterNone | agent.py:73 | the selection is empty exactly when no row satisfies the mask |
| Sequences.FilterOnly | mytools.py:33 | when exactly one row satisfies the mask, the selection is that row |
| Sequences.Map | agent.py:78 | projection keeps the length and maps each element |
| Sequences.FilterCorresponds | mytools.py:85 | selecting on parsed rows and projecting gives the selection on the text rows when the masks agree row by row |
| Sequences.SplitJoin | mytools.py:125 | `",".join` of comma-free names splits back into the same names |
| Ledger.ParseExpiries | agent.py:58 | the expiry column parses entry by entry, each entry holding its row and that row's day, and a failure is a date error |
| Ledger.ParseExpiriesFails | agent.py:58 | the column fails to parse exactly when some row's text does not parse |
| Ledger.WellFormedAppend | mytools.py:108 | concatenating two well-formed ledgers gives a well-formed ledger |
| Ledger.FlaggedNames | mytools.py:123-124 | `fetch_list`'s name list: no longer than the ledger, and every name on it is that of a flagged row |
| Ledger.FlaggedList | mytools.py:125 | `fetch_list`'s checklist: empty when nothing is flagged, and the bare name when one row is |
| Ledger.FlaggedNamesSpec | mytools.py:123-124 | the flagged names are exactly those of flagged rows, in table order, and listing a concatenation lists each part |
| Ledger.FlaggedListSplits | mytools.py:120-126 | `fetch_list`'s checklist splits back into exactly the flagged names |
| Ledger.WellFormedParses | agent.py:58 | a well-formed ledger always parses |
| Policy.ReRenderRow | agent.py:58-61 | a re-rendered row keeps its name, status and storage, its expiry reads back as the shifted day, and a non-counter row with canonical text is unchanged |
| Policy.ShiftCounter | agent.py:57-61 | the table `update_expiry` writes keeps the row count, and the shift fails only with a date error or a shifted date outside the timestamp range |
| Policy.HeatShifted | agent.py:59-60 | the heat adjustment of one expiry: one day earlier on the counter, unchanged elsewhere (`Policy.ReRenderRow` states what it does to a row) |
| Policy.ShiftCounterEffect | agent.py:58-62 | every counter row moves exactly one day earlier; other rows keep their date; names, statuses, storages, count and order are unchanged |
| Policy.ShiftCounterFails | agent.py:58-65 | the shift fails exactly when some expiry does not parse or some counter row is on the first representable day |
| Policy.UpdateExpiryStep | agent.py:55-65 | `update_expiry` succeeds exactly when the shift does, and on failure the ledger is unchanged |
| Policy.UpdateExpiry | agent.py:52-65 | the file afterwards holds exactly what `UpdateExpiryStep` leaves behind |
| Policy.ShiftKeepsWellFormed | agent.py:58-62 | shifting keeps a ledger well formed |
| Policy.Expiring | agent.py:72 | `check_stocks`' condition: an overdue expiry always meets it, and an expiry more than 3 days after today never does |
| Policy.ExpiringByDays | agent.py:71-72 | after midnight a row is flagged iff it expires at most 3 days after today; at midnight iff fewer than 3 |
| Policy.CheckStocksStep | agent.py:70-84 | the ledger is rewritten only when some row is flagged |
| Policy.CheckStocksFails | agent.py:70-84 | `check_stocks` fails exactly when some expiry does not parse or some difference between an expiry midnight and now leaves pandas' int64 nanoseconds |
| Policy.CheckStocksQuiet | agent.py:72-82 | nothing is reported exactly when every expiry parses, no difference to now overflows, and no row is within the horizon |
| Policy.CheckStocksFlags | agent.py:72-82 | when it flags, it flags exactly the expiring rows, leaves the others as they were, and lists the expiring names comma-joined in table order |
| Policy.CheckStocksKeepsColumns | agent.py:72-79 | every row stays in place with its name, expiry and storage |
| Policy.ExpiringNamesAgree | agent.py:78-79 | the rows selected after parsing are exactly the expiring rows of the text ledger |
| Policy.CheckStocks | agent.py:66-84 | the file afterwards holds exactly what `CheckStocksStep` leaves behind |
| Policy.CheckStocksKeepsWellFormed | agent.py:72-75 | flagging keeps a ledger well formed, and a status only stays or becomes "flagged" |
| Policy.CheckStocksEffect | agent.py:70-84 | on a readable ledger the call fails iff some difference to now overflows, and then writes nothing; otherwise a row ends flagged iff it was flagged or is expiring, and an update is reported iff some row is expiring; name, expiry and storage are unchanged |
| Policy.DeltaOverflows | agent.py:72 | the int64-nanosecond difference overflows whenever the expiry lies 106752 days or more before today (106753 after), and never within 106750 days |
| Policy.Mark | agent.py:74 | marking keeps name, expiry and storage, and leaves a row flagged exactly when it was flagged or is expiring |
| Policy.AncientExpiryFails | agent.py:70-84 | an expiry at least 106752 days (about 292 years) before today makes the difference overflow: the call fails, with that error when every expiry parses, and the ledger is untouched |
| Policy.OverflowsAgree | agent.py:72 | no parsed expiry overflows exactly when no ledger row does |
| Policy.SpoilageStep | agent.py:88-106 | a weather failure passes through; at 20 degrees or below nothing changes and no update is reported; an update is reported only above 20 degrees |
| Policy.SpoilageKeepsColumns | agent.py:88-106 | whatever the forecast, the pass keeps every row in place with its name and storage |
| Policy.CheckSpoilage | agent.py:88-106 | the file afterwards holds exactly what `SpoilageStep` leaves behind |
| Policy.HotForecastPass | agent.py:93-98 | on a hot forecast, counter rows move one day earlier; unless some new expiry's difference to now overflows (then only the shift is kept and no update is reported), a row ends flagged iff it was flagged or its new expiry is within the horizon, and an update is reported iff some new expiry is |
| Policy.HotForecastChecks | agent.py:93-96 | a hot forecast runs `check_stocks` on the shifted ledger and reports an update exactly when that flags |
| Policy.HotForecastChecksAll | agent.py:93-98 | on any hot forecast, whether or not the shift succeeded, `check_stocks` runs on the ledger `update_expiry` leaves, and an update is reported exactly when that flags |
| Policy.ShiftedExpiring | agent.py:58-79 | a shifted row is expiring, or overflows, exactly when the original row does once its counter shift is applied |
| Policy.UnreadableLedgerReportsNoUpdate | agent.py:94-100 | an unreadable ledger on a hot day yields success with no update and an unchanged ledger |
| Policy.AlertText | agent.py:123-129 | the alert starts with "Attention from your Pantry! " and its length is that of the prefix, list and chosen clauses |
| Policy.AlertRoundTrip | agent.py:125-128 | the checklist can be read back verbatim out of either alert variant |
| Policy.RoutineMessage | agent.py:112-115 | the routine alert is the alert prefix, then every flagged name comma-joined, then " are getting spoiled by next 2 days" |
| Policy.RoutineMessageWhenNothingFlagged | agent.py:110-115 | with nothing flagged the routine alert carries an empty list |
| Policy.RoutineAgent | agent.py:133-143 | a weather failure is returned and nothing is sent; otherwise the ledger is the spoilage pass's, and the alert for the flagged rows is sent |
| Tools.Get | mytools.py:23 | subscripting succeeds exactly on a dictionary holding the key |
| Tools.ParseJsonDate | mytools.py:49 | a date value parses exactly when it is text in `DD-MM-YYYY` form within the timestamp range |
| Tools.AddDays | mytools.py:52 | adding days succeeds exactly when the result stays in the timestamp range |
| Tools.AddCalendarMonths | mytools.py:55 | a successful month addition is a representable day |
| Tools.AddCalendarMonthsDate | mytools.py:55 | adding months succeeds exactly when the clamped date n months later is in year 1 or after and in the timestamp range, and then it is that date |
| Tools.GroceryShelf | mytools.py:32-42 | looking up a grocery fails only when several reference rows carry its name |
| Tools.GroceryIntake | mytools.py:35-43 | a grocery expires today plus its shelf life, as an open row of its storage whose expiry text is that day formatted |
| Tools.FormatGrocery | mytools.py:26-43 | a formatted grocery is an open row carrying the item's name |
| Tools.PackagedExpiry | mytools.py:48-57 | an expiry a packaged item sets for itself is a representable day |
| Tools.FormatPackaged | mytools.py:46-58 | a formatted packaged item is an open fridge row whose expiry text is its representable expiry day formatted; without its own dates it takes the previous item's expiry |
| Tools.GroceryShelfSpec | mytools.py:32-42 | a name on a reference row takes that row's shelf life and storage; an absent name takes 2 days on the counter |
| Tools.FormatItem | mytools.py:26-59 | an item without a "type" fails, and a formatted expiry is a representable day |
| Tools.FormatItemFresh | mytools.py:26-59 | each row is open, carries the item's name, and has expiry text that reads back as the day passed on; packaged rows go to the fridge |
| Tools.GroceryFresh | mytools.py:26-43 | a grocery row is open, named after the item, dated by its expiry, and stored as the reference table or the default says |
| Tools.PackagedFresh | mytools.py:46-58 | a packaged row is open, named after the item, dated by its expiry and kept in the fridge |
| Tools.FormatItems | mytools.py:25-59 | the loop over the items gives one row per item |
| Tools.FormatBatch | mytools.py:15-62 | `fresh_stocks_format` succeeds only on iterable items and then gives one row per item |
| Tools.FormatItemsFresh | mytools.py:25-60 | one row per item, in input order, each open with the item's name and a readable expiry |
| Tools.ItemsOf | mytools.py:23-25 | a missing or non-dictionary payload fails; a list of items is iterated as given |
| Tools.FreshStocksFormat | mytools.py:15-62 | the loop that appends one row per item and carries `exp` computes exactly `FormatBatch` |
| Tools.FormatItemsFailsOnPrefix | mytools.py:61-62 | an item that fails fails the whole batch with its error |
| Tools.GroceryFromReference | mytools.py:32-36 | a grocery on exactly one reference row expires today plus its shelf life, with that row's storage |
| Tools.GroceryByDefault | mytools.py:38-43 | a grocery missing from the reference table expires today plus 2 days, on the counter |
| Tools.PackagedWithExpiry | mytools.py:48-58 | a truthy explicit expiry is kept (verbatim when canonical), in the fridge |
| Tools.PackagedFromManufacture | mytools.py:50-55 | without an expiry, the expiry is the manufacture date plus N days when `time_denom` is "d", and otherwise plus N calendar months, N being `int(time_remaining)` whatever JSON value it is |
| Tools.PackagedDays | mytools.py:50-58 | a manufacture date plus a day count that stays in range gives a fridge row, status "open", dated that many days later and written `DD-MM-YYYY` |
| Tools.DaysWithinMonth | mytools.py:52 | for example, made 14-09-2025 with 7 days left expires 21-09-2025: a day count that stays in the month lands on the day of the month plus N, and the text parses back to the same day |
| Tools.PackagedWithoutDates | mytools.py:56-58 | an item with neither date reuses the previous item's expiry, and as the first item it fails |
| Tools.KeepRow | mytools.py:75-81 | the keep-mask keeps every row whose expiry day is after today and drops every flagged row whose expiry day is before today |
| Tools.ClearOld | mytools.py:65-89 | pruning never adds rows and fails only with a date error |
| Tools.ClearOldSpec | mytools.py:65-89 | the kept rows are exactly the non-flagged ones and the flagged ones not yet past expiry, in order; it fails iff some expiry does not parse |
| Tools.KeepAfterMidnight | mytools.py:71-78 | after midnight, a flagged row survives iff its expiry day is after today |
| Tools.ClearOldSelects | mytools.py:75-85 | every row meeting the keep condition survives, and every survivor met it |
| Tools.ClearOldKeepsOrder | mytools.py:81-85 | pruning a concatenation prunes each part, so surviving rows keep their relative order |
| Tools.UpdateStockStep | mytools.py:92-117 | success is reported with "New Stock Updated" exactly when pruning and formatting both succeed; any failure leaves the ledger unchanged |
| Tools.UpdateStockRows | mytools.py:95-113 | merging succeeds exactly when every stored expiry parses and the batch formats, and it then writes the kept rows followed by the new rows |
| Tools.UpdateStock | mytools.py:92-117 | the file afterwards holds exactly what `UpdateStockStep` leaves behind |
| Tools.UpdateStockKeepsWellFormed | mytools.py:98-113 | merging new stock keeps a ledger well formed when the reference storages are "counter" or "fridge" |
| ImageAgent.LStrip | agent_image.py:130 | removes exactly a leading run of whitespace |
| ImageAgent.RStrip | agent_image.py:130 | removes exactly a trailing run of whitespace |
| ImageAgent.Strip | agent_image.py:130 | the result is a slice of the text with only whitespace around it, and it neither starts nor ends with whitespace |
| ImageAgent.StripSplits | agent_image.py:130 | the reply is whitespace, then its stripped text, then whitespace |
| ImageAgent.Find | agent_image.py:131 | `find` is -1 iff the character is absent, and otherwise its first position |
| ImageAgent.RFind | agent_image.py:132 | `rfind` is -1 iff the character is absent, and otherwise its last position |
| ImageAgent.Candidate | agent_image.py:131-139 | the slice is no longer than the reply, and when not empty it starts with `{` and ends with `}` |
| ImageAgent.CandidateAbsent | agent_image.py:131-139 | there is no candidate exactly when the text lacks `{` or `}` |
| ImageAgent.CandidateShifted | agent_image.py:131-139 | a window of the text that holds every brace of the text has the same candidate as the text |
| ImageAgent.CandidateFraming | agent_image.py:131-139 | brace-free text before and after does not change the candidate |
| ImageAgent.StripKeepsCandidate | agent_image.py:130-139 | stripping the reply never changes the candidate |
| ImageAgent.CandidateOfObject | agent_image.py:139 | text running from `{` to `}` is its own candidate |
| ImageAgent.Validate | agent_image.py:155-162 | valid iff both "success" and "items" are keys (elements, substrings); on a scalar, `in` raises |
| ImageAgent.ParseResponse | agent_image.py:127-154 | no braces gives the "No JSON found" failure; an uncaught error comes only from validating a scalar; any other result is the object decoded from the candidate, which passed validation |
| ImageAgent.ParseResponseRecovers | agent_image.py:129-148 | an object with both keys, wrapped in brace-free text, is returned unchanged |
| ImageAgent.ParseResponseDecodeFailure | agent_image.py:149-154 | a decode error becomes the "Failed to parse JSON" failure carrying the decoder's message |
| ImageAgent.ParseResponseMissingKey | agent_image.py:142-147 | a dictionary missing a required key becomes the "Invalid data structure returned" failure |
| ImageAgent.ProcessReceipt | agent_image.py:107-126 | an exception becomes "Error processing image : ..."; whatever the parser returns is wrapped as extracted data |
| ImageAgent.ImgProcessStep | agent_image.py:167-171 | a failed receipt is reported with the ledger unchanged; a processed one is exactly `update_stock` on the extracted data |
| ImageAgent.ImgProcess | agent_image.py:163-171 | the file afterwards holds exactly what `ImgProcessStep` leaves behind |
| ImageAgent.FailureDictNeverWrites | agent_image.py:119-120 | a parser failure dictionary reaches `update_stock`, which fails with KeyError('items') and never writes |

## Left out

- The Flask routes (`app.py`) are not part of this model, nor is the donation agent (`agent3.py`), which posts to a text-generation service.
- The messaging client (`send_msg.py`) is not modelled. The alert it would send is the `sent` output of `Policy.RoutineAgent`.
- `fetch_weather` and `get_avg` (HTTP, Kelvin to Celsius float averaging, division by zero on an empty forecast) are not modelled. Their result is the `Weather` input: a failure, or an average as a real number.
- The scheduler (`run_scheduler`, `schedule`) is an endless timed loop and is not modelled.
- Opening the image (PIL), calling the vision model and `genai.configure` are not modelled. Their outcome is the `reply` input. The extraction prompt is not modelled.
- `json.loads` is the `loads` parameter. Errors other than a decode error (such as deep recursion) are not modelled.
- CSV reading and writing is the `InventoryFile` class, and the reference table is a sequence parameter. The model has no read or write failures, pandas type inference, or empty (NaN) cells.
- Concurrent access to the ledger file by several agents is not modelled.
- The "Unnamed" column housekeeping and all `print` output are not modelled. The helper column `expiry_dt_dt` that `clear_old_optimized` adds to the caller's frame is not modelled, because the caller never reads it.
- Non-string item names or dates: the model fails with a TypeError, where pandas would store a non-string name or try to convert a non-string date.
- `Tools.ParseJsonDate` reads only the ASCII-digit forms that strptime's `%d-%m-%Y` accepts. pandas' handling of other Unicode digits is not modelled.
- JsonValue.ToInt: reads text as an optional sign and ASCII digits. Python's `int()` also accepts surrounding whitespace, underscores and other Unicode decimal digits (`int("٧") == 7`), which are not modelled; such text fails with a ValueError in the model.
- JsonValue.Json: has no NaN or ±Infinity, which `json.loads` accepts. So `int()` of a NaN `time_remaining` (a ValueError) and a NaN `expiry_date`, which is truthy and turns into NaT whose `strftime` raises, are not modelled.
- DateText.ParseDay: reads only ASCII digits, like `Tools.ParseJsonDate`. pandas' acceptance of other Unicode digits in the ledger's `expiry_dt` is not modelled.
- Tools.FormatItems: takes one `now` for the whole batch. The source calls `datetime.today()` once per grocery item (mytools.py:31), so a batch whose processing crosses midnight can date its groceries from two different days; that is not modelled.
- Policy.CheckStocksStep: the current moment is any day number. A current moment outside the pandas timestamp range, where computing the difference would itself fail differently, is not modelled.
- `Calendar.InRange` bounds dates by whole days (22-09-1677 to 11-04-2262). pandas' range starts at 00:12:43 on 21-09-1677 and ends at 23:47:16 on 11-04-2262, so the tail of 21-09-1677 and the last minutes of 11-04-2262 are not modelled.
- Exception messages: `Ledger.Error` names the exception and its subject, not Python's wording. The one exception is the TypeError from `in` on a scalar, whose message reaches the user. That message uses the classic CPython wording.
- `upload_image`'s `asyncio.run` wrapper and `process_receipt_image`'s dispatch on the image argument's type are not modelled.
- Policy.ShiftCounter: its own `ensures` states only the row count. What it does to each row is stated by `Policy.ShiftCounterEffect` and `Policy.ShiftCounterFails`.
- Tools.FormatItem: its own `ensures` does not say which expiry each branch computes. The branch lemmas (`Tools.GroceryFromReference` to `Tools.PackagedWithoutDates`) state that for `Tools.FormatGrocery` and `Tools.FormatPackaged`, and `Tools.FormatItemCases` links the two to `Tools.FormatItem`.
- Tools.AddCalendarMonths: its own `ensures` says only that the result is representable. `Tools.AddCalendarMonthsDate` states which date it is and when it fails.
- Policy.CheckStocksStep: its own `ensures` says only when the ledger is left alone. `Policy.CheckStocksFails`, `Policy.CheckStocksQuiet` and `Policy.CheckStocksFlags` state the rest.
