/** The expense workflow: validating the submission form, registering a
    request (request id, ledger row, thread cache), archiving a receipt
    posted in the request's thread, recording approval or rejection from a
    reaction, and marking a request complete from a command. The chat
    service, the clock and the drive and spreadsheet services' own answers
    are parameters; messages posted to the chat are not modelled. Each
    handler returns the state it leaves behind and the error it raises, if
    any: the effects made before an error stay. */
module Expense {
  import opened Wrappers
  import opened Text
  import opened Numbers
  import opened Dates
  import opened Ledger
  import opened Archive
  import opened RequestId

  datatype Config = Config(
    ledger: LedgerConfig,
    requestIdPrefix: string,
    approveReaction: string,
    rejectReaction: string,
    archive: ArchiveConfig)

  // ---------------------------------------------------------------------
  // The submission form

  /** The form's state: block id, then action id, then the element's value
      when it has one. */
  type FormValues = map<string, map<string, Option<string>>>

  const TitleBlock: string := "expense_title_block"
  const AmountBlock: string := "amount_block"
  const UsageDateBlock: string := "usage_date_block"
  const RemarksBlock: string := "remarks_block"

  const TitleError: string := "経費内容を入力してください"
  const AmountError: string := "金額は半角の数値で入力してください"
  const UsageDateError: string := "利用日は YYYY-MM-DD 形式で入力してください"

  function InputValue(values: FormValues, blockId: string, actionId: string): Option<string> {
    if blockId in values && actionId in values[blockId] then values[blockId][actionId] else None
  }

  /** A required field: its trimmed value, or `None` where the value is
      missing or empty and the form handler raises. */
  function RequiredValue(values: FormValues, blockId: string, actionId: string): (r: Option<string>)
    ensures r.Some? <==> InputValue(values, blockId, actionId).Some? && InputValue(values, blockId, actionId).value != ""
    ensures r.Some? ==> r.value == Trim(InputValue(values, blockId, actionId).value)
  {
    match InputValue(values, blockId, actionId)
    case Some(v) => if v == "" then None else Some(Trim(v))
    case None => None
  }

  /** An optional field: its trimmed value when present. */
  function OptionalValue(values: FormValues, blockId: string, actionId: string): (r: Option<string>)
    ensures r.Some? <==> InputValue(values, blockId, actionId).Some?
    ensures r.Some? ==> r.value == Trim(InputValue(values, blockId, actionId).value)
  {
    match InputValue(values, blockId, actionId)
    case Some(v) => Some(Trim(v))
    case None => None
  }

  /** The amount: every character other than digits and dots is dropped,
      the rest read as a number, and only a positive number is accepted. */
  function ParseAmount(raw: string): (r: Option<Decimal>)
    ensures r.Some? ==> Canonical(r.value) && IsPositive(r.value)
  {
    match ParseNumber(Filter(raw, IsNumeralChar))
    case NaN => None
    case Num(d) => if IsPositive(d) then Some(d) else None
  }

  /** An amount is accepted exactly when its digits and dots form a numeral
      with at most one dot and some non-zero digit. */
  lemma ParseAmountSpec(raw: string)
    ensures ParseAmount(raw).Some? <==>
      WellFormedNumeral(Filter(raw, IsNumeralChar)) && HasNonzeroDigit(Filter(raw, IsNumeralChar))
  {
    var t := Filter(raw, IsNumeralChar);
    if t != [] {
      assert IsNumeralChar(t[0]) && IsNumeralChar(t[|t| - 1]);
    }
    TrimClean(t);
    ParseNumeralSpec(t);
  }

  /** The spelling of a positive amount is accepted as that amount. */
  lemma ParseAmountOfSpelling(d: Decimal)
    requires Canonical(d) && IsPositive(d)
    ensures ParseAmount(DecimalToString(d)) == Some(d)
  {
    DecimalToStringNumeral(d);
    FilterAllKept(DecimalToString(d), IsNumeralChar);
    ParseDecimalToString(d);
  }

  /** Currency signs and group separators are ignored. */
  lemma ParseAmountGrouped(raw: string)
    requires raw == "¥1,000"
    ensures ParseAmount(raw) == Some(Decimal(1000, ""))
  {
    var d := Decimal(1000, "");
    GroupedDigits(raw);
    SpellThousand(d);
    ParseAmountFiltered(raw);
    ParseAmountOfSpelling(d);
  }

  /** Only the digits and dots of the input matter. */
  lemma ParseAmountFiltered(raw: string)
    ensures ParseAmount(raw) == ParseAmount(Filter(raw, IsNumeralChar))
  {
    FilterAllKept(Filter(raw, IsNumeralChar), IsNumeralChar);
  }

  lemma GroupedDigits(raw: string)
    requires raw == "¥1,000"
    ensures Filter(raw, IsNumeralChar) == "1000"
  {
    assert Filter(raw[5..], IsNumeralChar) == "0";
    assert Filter(raw[4..], IsNumeralChar) == "00";
    assert Filter(raw[3..], IsNumeralChar) == "000";
    assert Filter(raw[2..], IsNumeralChar) == "000";
    assert Filter(raw[1..], IsNumeralChar) == "1000";
  }

  lemma SpellThousand(d: Decimal)
    requires d == Decimal(1000, "")
    ensures DecimalToString(d) == "1000"
  {
    assert NatToString(1) == "1";
    assert NatToString(10) == "10";
    assert NatToString(100) == "100";
    assert NatToString(1000) == "1000";
  }

  /** Zero is refused. */
  lemma ParseAmountZero(raw: string)
    requires raw == "0"
    ensures ParseAmount(raw) == None
  {
    assert raw[0] == '0';
    FilterAllKept(raw, IsNumeralChar);
    var t := Filter(raw, IsNumeralChar);
    assert !HasNonzeroDigit(t) by {
      forall i | 0 <= i < |t| ensures !IsNonzeroDigit(t[i]) {
        assert t[i] == '0';
      }
    }
    ParseAmountSpec(raw);
  }

  /** A minus sign is dropped like any other character, so a negative
      amount is read as its magnitude. */
  lemma ParseAmountMinus(raw: string)
    requires raw == "-5"
    ensures ParseAmount(raw) == Some(Decimal(5, ""))
  {
    var d := Decimal(5, "");
    assert Filter(raw, IsNumeralChar) == DecimalToString(d) by {
      assert Filter(raw, IsNumeralChar) == "5";
    }
    ParseAmountFiltered(raw);
    ParseAmountOfSpelling(d);
  }

  /** The usage date: the trimmed text as an extended calendar date. */
  function ParseUsageDate(raw: string): (r: Option<Date>)
    ensures r.Some? ==> ValidDate(r.value) && FormatExtended(r.value) == Trim(raw)
  {
    var t := Trim(raw);
    var r := ParseCalendarDate(t);
    if r.Some? then CalendarDateRoundTrip(t); r else r
  }

  /** A text the calendar-date parser accepts is the extended spelling of
      the date it yields. */
  lemma CalendarDateRoundTrip(s: string)
    requires ParseCalendarDate(s).Some?
    ensures FormatExtended(ParseCalendarDate(s).value) == s
  {
    var d := ParseCalendarDate(s).value;
    var f := FormatExtended(d);
    ValidDateWidths(d);
    ParseFormatExtended(d);
    assert s[..4] == f[..4] by {
      PadDigitsUnique(s[..4], f[..4]);
    }
    assert s[5..7] == f[5..7] by {
      PadDigitsUnique(s[5..7], f[5..7]);
    }
    assert s[8..] == f[8..] by {
      PadDigitsUnique(s[8..], f[8..]);
    }
    assert s == s[..4] + "-" + s[5..7] + "-" + s[8..];
    assert f == f[..4] + "-" + f[5..7] + "-" + f[8..];
  }

  /** Two digit runs of one length with one value are the same text. */
  lemma {:induction false} PadDigitsUnique(a: string, b: string)
    requires AllDigits(a) && AllDigits(b) && |a| == |b| && ParseDigits(a) == ParseDigits(b)
    ensures a == b
  {
    if a != [] {
      var n := |a| - 1;
      assert ParseDigits(a) == ParseDigits(a[..n]) * 10 + DigitValue(a[n]);
      assert ParseDigits(b) == ParseDigits(b[..n]) * 10 + DigitValue(b[n]);
      assert DigitValue(a[n]) == DigitValue(b[n]);
      PadDigitsUnique(a[..n], b[..n]);
      assert a == a[..n] + [a[n]] && b == b[..n] + [b[n]];
    }
  }

  /** A validated submission. */
  datatype Submission = Submission(expenseTitle: string, amount: Decimal, usageDate: Date, remarks: string)

  /** The title: required and not blank. */
  function TitleValue(values: FormValues): (r: Option<string>)
    ensures r.Some? ==> r.value != [] && Trim(r.value) == r.value
  {
    var raw := InputValue(values, TitleBlock, "expense_title");
    match RequiredValue(values, TitleBlock, "expense_title")
    case Some(t) =>
      assert t == Trim(raw.value);
      TrimIdempotent(raw.value);
      if t == "" then None else Some(t)
    case None => None
  }

  function AmountValue(values: FormValues): (r: Option<Decimal>)
    ensures r.Some? ==> Canonical(r.value) && IsPositive(r.value)
  {
    match RequiredValue(values, AmountBlock, "amount")
    case Some(raw) => ParseAmount(raw)
    case None => None
  }

  function UsageDateValue(values: FormValues): (r: Option<Date>)
    ensures r.Some? ==> ValidDate(r.value)
  {
    match RequiredValue(values, UsageDateBlock, "usage_date")
    case Some(raw) => ParseUsageDate(raw)
    case None => None
  }

  /** One message per invalid field, keyed by the field's block. */
  function FieldErrors(titleOk: bool, amountOk: bool, usageDateOk: bool): (r: map<string, string>)
    ensures TitleBlock in r <==> !titleOk
    ensures AmountBlock in r <==> !amountOk
    ensures UsageDateBlock in r <==> !usageDateOk
    ensures r.Keys <= {TitleBlock, AmountBlock, UsageDateBlock}
    ensures TitleBlock in r ==> r[TitleBlock] == TitleError
    ensures AmountBlock in r ==> r[AmountBlock] == AmountError
    ensures UsageDateBlock in r ==> r[UsageDateBlock] == UsageDateError
  {
    var e1: map<string, string> := if titleOk then map[] else map[TitleBlock := TitleError];
    var e2 := if amountOk then e1 else e1[AmountBlock := AmountError];
    if usageDateOk then e2 else e2[UsageDateBlock := UsageDateError]
  }

  function FormErrors(values: FormValues): map<string, string> {
    FieldErrors(TitleValue(values).Some?, AmountValue(values).Some?, UsageDateValue(values).Some?)
  }

  /** The validated form, or the messages for every invalid field at once. */
  function ParseSubmission(values: FormValues): (r: Result<Submission, map<string, string>>)
    ensures r.Success? <==> TitleValue(values).Some? && AmountValue(values).Some? && UsageDateValue(values).Some?
    ensures r.Failure? ==> r.error == FormErrors(values) && r.error != map[]
    ensures r.Success? ==>
      && r.value.expenseTitle != [] && Trim(r.value.expenseTitle) == r.value.expenseTitle
      && Canonical(r.value.amount) && IsPositive(r.value.amount)
      && ValidDate(r.value.usageDate)
      && r.value.remarks == OptionalValue(values, RemarksBlock, "remarks").GetOr("")
  {
    var errors := FormErrors(values);
    if errors != map[] then
      assert TitleValue(values).None? || AmountValue(values).None? || UsageDateValue(values).None?;
      Failure(errors)
    else
      Success(Submission(TitleValue(values).value, AmountValue(values).value, UsageDateValue(values).value,
                         OptionalValue(values, RemarksBlock, "remarks").GetOr("")))
  }

  /** The form as filled in with a title, the spelling of an amount, the
      extended spelling of a date and remarks. */
  function FilledForm(title: string, amount: Decimal, date: Date, remarks: string): FormValues
    requires ValidDate(date)
  {
    map[
      TitleBlock := map["expense_title" := Some(title)],
      AmountBlock := map["amount" := Some(DecimalToString(amount))],
      UsageDateBlock := map["usage_date" := Some(FormatExtended(date))],
      RemarksBlock := map["remarks" := Some(remarks)]]
  }

  /** A form filled in with valid values reads back as those values. */
  lemma SubmissionRoundTrip(title: string, amount: Decimal, date: Date, remarks: string)
    requires title != [] && Trim(title) == title
    requires Canonical(amount) && IsPositive(amount) && ValidDate(date)
    requires Trim(remarks) == remarks
    ensures ParseSubmission(FilledForm(title, amount, date, remarks)) == Success(Submission(title, amount, date, remarks))
  {
    var form := FilledForm(title, amount, date, remarks);
    FilledTitle(title, amount, date, remarks);
    FilledAmount(title, amount, date, remarks);
    FilledUsageDate(title, amount, date, remarks);
    assert InputValue(form, RemarksBlock, "remarks") == Some(remarks);
  }

  /** Each field of the filled form holds the value written into it. */
  lemma FilledInputs(title: string, amount: Decimal, date: Date, remarks: string)
    requires ValidDate(date)
    ensures
      var form := FilledForm(title, amount, date, remarks);
      && InputValue(form, TitleBlock, "expense_title") == Some(title)
      && InputValue(form, AmountBlock, "amount") == Some(DecimalToString(amount))
      && InputValue(form, UsageDateBlock, "usage_date") == Some(FormatExtended(date))
      && InputValue(form, RemarksBlock, "remarks") == Some(remarks)
  {
  }

  lemma FilledTitle(title: string, amount: Decimal, date: Date, remarks: string)
    requires title != [] && Trim(title) == title && ValidDate(date)
    ensures TitleValue(FilledForm(title, amount, date, remarks)) == Some(title)
  {
    assert InputValue(FilledForm(title, amount, date, remarks), TitleBlock, "expense_title") == Some(title);
  }

  lemma FilledAmount(title: string, amount: Decimal, date: Date, remarks: string)
    requires Canonical(amount) && IsPositive(amount) && ValidDate(date)
    ensures AmountValue(FilledForm(title, amount, date, remarks)) == Some(amount)
  {
    var form := FilledForm(title, amount, date, remarks);
    var spelled := DecimalToString(amount);
    FilledInputs(title, amount, date, remarks);
    SpellingTrimmed(amount);
    assert RequiredValue(form, AmountBlock, "amount") == Some(spelled);
    ParseAmountOfSpelling(amount);
  }

  /** The spelling of an amount has no surrounding whitespace. */
  lemma SpellingTrimmed(d: Decimal)
    requires Canonical(d)
    ensures Trim(DecimalToString(d)) == DecimalToString(d)
  {
    var s := DecimalToString(d);
    DecimalToStringNumeral(d);
    assert IsNumeralChar(s[0]) && IsNumeralChar(s[|s| - 1]);
    TrimClean(s);
  }

  lemma FilledUsageDate(title: string, amount: Decimal, date: Date, remarks: string)
    requires ValidDate(date)
    ensures UsageDateValue(FilledForm(title, amount, date, remarks)) == Some(date)
  {
    var form := FilledForm(title, amount, date, remarks);
    var text := FormatExtended(date);
    assert InputValue(form, UsageDateBlock, "usage_date") == Some(text);
    assert RequiredValue(form, UsageDateBlock, "usage_date") == Some(Trim(text));
    ParseUsageDateOfFormat(date);
  }

  /** The extended spelling of a valid date is read back as that date. */
  lemma ParseUsageDateOfFormat(date: Date)
    requires ValidDate(date)
    ensures ParseUsageDate(FormatExtended(date)) == Some(date)
  {
    FormatExtendedTrimmed(date);
    ParseFormatExtended(date);
  }

  /** A title of only whitespace is reported as missing. */
  lemma BlankTitleRejected(values: FormValues)
    requires InputValue(values, TitleBlock, "expense_title").Some?
    requires Trim(InputValue(values, TitleBlock, "expense_title").value) == []
    ensures ParseSubmission(values).Failure?
    ensures TitleBlock in ParseSubmission(values).error && ParseSubmission(values).error[TitleBlock] == TitleError
  {
    assert TitleValue(values).None?;
  }

  /** A blank form reports all three required fields. */
  lemma EmptyFormErrors()
    ensures ParseSubmission(map[]) == Failure(map[TitleBlock := TitleError, AmountBlock := AmountError, UsageDateBlock := UsageDateError])
  {
    var empty: FormValues := map[];
    MissingFields(empty);
    assert FormErrors(empty) == FieldErrors(false, false, false);
    AllFieldErrors();
  }

  /** A form without the three required blocks fails on each of them. */
  lemma MissingFields(values: FormValues)
    requires TitleBlock !in values && AmountBlock !in values && UsageDateBlock !in values
    ensures TitleValue(values).None? && AmountValue(values).None? && UsageDateValue(values).None?
  {
    assert RequiredValue(values, TitleBlock, "expense_title").None?;
    assert RequiredValue(values, AmountBlock, "amount").None?;
    assert RequiredValue(values, UsageDateBlock, "usage_date").None?;
  }

  lemma AllFieldErrors()
    ensures FieldErrors(false, false, false)
         == map[TitleBlock := TitleError, AmountBlock := AmountError, UsageDateBlock := UsageDateError]
  {
    var r := FieldErrors(false, false, false);
    var m := map[TitleBlock := TitleError, AmountBlock := AmountError, UsageDateBlock := UsageDateError];
    assert r.Keys == m.Keys;
  }

  // ---------------------------------------------------------------------
  // Targets, links and the thread cache

  /** The sheet a stored request is written back to: the configured target
      (with its gid) when the spreadsheet is the configured one, under the
      request's own tab name; otherwise the request's spreadsheet and tab
      without a gid. */
  function ResolveSheetTarget(sheet: SheetTarget, spreadsheetId: string, tabName: string): (r: SheetTarget)
    ensures KeyOf(r) == TabKey(spreadsheetId, tabName)
    ensures r.gid == if sheet.spreadsheetId == spreadsheetId then sheet.gid else None
  {
    if sheet.spreadsheetId == spreadsheetId then
      if sheet.tabName == tabName then sheet else sheet.(tabName := tabName)
    else SheetTarget(spreadsheetId, tabName, None)
  }

  /** A request read from the configured sheet is written back to it. */
  lemma ResolveConfiguredSheet(sheet: SheetTarget)
    ensures ResolveSheetTarget(sheet, sheet.spreadsheetId, sheet.tabName) == sheet
  {
  }

  function TargetOf(config: Config, request: Record): SheetTarget {
    ResolveSheetTarget(config.ledger.sheet, request.spreadsheetId, request.tabName)
  }

  /** The row link of a request, or a link built from its spreadsheet and
      row number when it has none. */
  function BuildSheetLink(request: Record): (r: string)
    ensures request.sheetRowUrl.Some? ==> r == request.sheetRowUrl.value
    ensures StartsWith(r, SpreadsheetEditUrl(request.spreadsheetId)) || request.sheetRowUrl.Some?
  {
    match request.sheetRowUrl
    case Some(u) => u
    case None =>
      var base := SpreadsheetEditUrl(request.spreadsheetId);
      StartsWithConcat(base, "#range=A" + RowNumberText(request.rowNumber));
      base + "#range=A" + RowNumberText(request.rowNumber)
  }

  /** Without a row link, the built link is the ledger's row link for the
      request's spreadsheet without a gid. */
  lemma SheetLinkAgreesWithRowUrl(request: Record)
    requires request.sheetRowUrl.None? && request.rowNumber.Some?
    ensures BuildSheetLink(request)
         == BuildRowUrl(SheetTarget(request.spreadsheetId, request.tabName, None), request.rowNumber.value)
  {
  }

  /** Requests in the thread cache, keyed by thread. */
  type Cache = map<string, Record>

  datatype Lookup = Lookup(cache: Cache, record: Option<Record>)

  /** The cached request of a thread, else the ledger's, which is then
      cached. */
  function GetRequestByThreadTs(cache: Cache, book: Workbook, config: LedgerConfig, threadTs: string): (r: Result<Lookup, StoreError>)
    ensures threadTs in cache ==> r == Success(Lookup(cache, Some(cache[threadTs])))
    ensures threadTs !in cache ==> (r.Failure? <==> KeyOf(config.sheet) !in book)
    ensures threadTs !in cache && r.Success? ==>
      && r.value.record == FindRecordByThreadTs(book, config, threadTs).value
      && r.value.cache == if r.value.record.Some? then cache[threadTs := r.value.record.value] else cache
  {
    if threadTs in cache then Success(Lookup(cache, Some(cache[threadTs])))
    else
      match FindRecordByThreadTs(book, config, threadTs)
      case Failure(e) => Failure(e)
      case Success(None) => Success(Lookup(cache, None))
      case Success(Some(record)) => Success(Lookup(cache[threadTs := record], Some(record)))
  }

  /** Once a request has been found, the next lookup of its thread is
      served from the cache, whatever the ledger holds by then. */
  lemma LookupThenCacheHit(cache: Cache, book: Workbook, laterBook: Workbook, config: LedgerConfig, threadTs: string)
    requires GetRequestByThreadTs(cache, book, config, threadTs).Success?
    requires GetRequestByThreadTs(cache, book, config, threadTs).value.record.Some?
    ensures
      var first := GetRequestByThreadTs(cache, book, config, threadTs).value;
      GetRequestByThreadTs(first.cache, laterBook, config, threadTs) == Success(first)
  {
  }

  // ---------------------------------------------------------------------
  // Handlers

  const ReceivedStatus: string := "受付済"
  const ApprovedStatus: string := "承認"
  const RejectedStatus: string := "却下"
  const CompletedStatus: string := "完了"

  datatype HandlerError =
    | Invalid(errors: map<string, string>)
    | PostFailed
    | DownloadFailed
    | InvalidUsageDate(usageDate: string)
    | Store(storeError: StoreError)
    | Drive(archiveError: ArchiveError)

  datatype State = State(book: Workbook, drive: Drive, cache: Cache)

  datatype Outcome = Outcome(state: State, error: Option<HandlerError>)

  /** The row of a stored request exists in the ledger. */
  predicate RowExists(book: Workbook, request: Record) {
    var key := TabKey(request.spreadsheetId, request.tabName);
    key in book && FetchRow(book[key], request.rowNumber).Some?
  }

  /** Every cached request points at a row of the ledger. */
  predicate CacheBacked(state: State) {
    forall ts :: ts in state.cache ==> RowExists(state.book, state.cache[ts])
  }

  /** The ledger only grows: the same tabs, no tab shorter, no row emptied. */
  predicate BookGrows(before: Workbook, after: Workbook) {
    && before.Keys == after.Keys
    && (forall k :: k in before ==> |before[k]| <= |after[k]|)
    && (forall k, i :: k in before && 0 <= i < |before[k]| && before[k][i] != [] ==> after[k][i] != [])
  }

  lemma RowExistsGrows(before: Workbook, after: Workbook, request: Record)
    requires BookGrows(before, after) && RowExists(before, request)
    ensures RowExists(after, request)
  {
    var key := TabKey(request.spreadsheetId, request.tabName);
    var n := request.rowNumber.value;
    assert before[key][n - 1] != [];
  }

  lemma CacheBackedGrows(before: Workbook, after: Workbook, cache: Cache)
    requires BookGrows(before, after)
    ensures (forall ts :: ts in cache ==> RowExists(before, cache[ts])) ==>
            (forall ts :: ts in cache ==> RowExists(after, cache[ts]))
  {
    if forall ts :: ts in cache ==> RowExists(before, cache[ts]) {
      forall ts | ts in cache
        ensures RowExists(after, cache[ts])
      {
        RowExistsGrows(before, after, cache[ts]);
      }
    }
  }

  /** An update only grows the ledger. */
  lemma UpdateGrows(book: Workbook, target: SheetTarget, rowNumber: Option<nat>, u: Updates, now: string)
    requires UpdateRecord(book, target, rowNumber, u, now).Success?
    ensures BookGrows(book, UpdateRecord(book, target, rowNumber, u, now).value)
  {
    var after := UpdateRecord(book, target, rowNumber, u, now).value;
    var key := KeyOf(target);
    var n := rowNumber.value;
    assert |after[key][n - 1]| >= RowWidth;
    forall k, i | k in book && 0 <= i < |book[k]| && book[k][i] != []
      ensures after[k][i] != []
    {
      if k == key && i == n - 1 {
        assert |after[k][i]| >= RowWidth;
      }
    }
  }

  /** A record the ledger lookup returns points at an existing row. */
  lemma FoundRowExists(book: Workbook, config: LedgerConfig, threadTs: Option<string>, requestId: Option<string>)
    requires FindRecordInSheet(book, config.sheet, threadTs, requestId, config.currency).Success?
    requires FindRecordInSheet(book, config.sheet, threadTs, requestId, config.currency).value.Some?
    ensures RowExists(book, FindRecordInSheet(book, config.sheet, threadTs, requestId, config.currency).value.value)
  {
    var key := KeyOf(config.sheet);
    var rec := FindRecordInSheet(book, config.sheet, threadTs, requestId, config.currency).value.value;
    assert book[key][rec.rowNumber.value - 1] != [];
    RowExistsAt(book, rec, key);
  }

  lemma RowExistsAt(book: Workbook, rec: Record, key: TabKey)
    requires key in book && TabKey(rec.spreadsheetId, rec.tabName) == key
    requires rec.rowNumber.Some? && 1 <= rec.rowNumber.value <= |book[key]|
    requires book[key][rec.rowNumber.value - 1] != []
    ensures RowExists(book, rec)
  {
  }

  /** The updates that set a status and the updated-at time. */
  function StatusUpdates(status: string, updatedAt: string): Updates {
    Updates(None, None, None, None, None, Some(status), Some(updatedAt))
  }

  /** Writes a status into the row of a request, without looking at the
      status it replaces. */
  function WriteStatus(book: Workbook, config: Config, request: Record, status: string, updatedAt: string): (r: Result<Workbook, StoreError>)
    ensures r.Success? <==> RowExists(book, request)
    ensures r.Success? ==> BookGrows(book, r.value)
    ensures r.Success? ==>
      var key := TabKey(request.spreadsheetId, request.tabName);
      var n := request.rowNumber.value;
      && key in r.value && 1 <= n <= |r.value[key]| && |r.value[key][n - 1]| >= RowWidth
      && r.value[key][n - 1][14] == status
      && r.value[key][n - 1][17] == updatedAt
  {
    var r := UpdateRecord(book, TargetOf(config, request), request.rowNumber, StatusUpdates(status, updatedAt), updatedAt);
    if r.Success? then
      UpdateGrows(book, TargetOf(config, request), request.rowNumber, StatusUpdates(status, updatedAt), updatedAt);
      r
    else r
  }

  /** After a write, the configured sheet is read again by request id and
      the request found, if any, is cached under its thread. */
  function Refresh(state: State, config: Config, requestId: string): (r: Outcome)
    ensures r.state.book == state.book && r.state.drive == state.drive
    ensures r.error.Some? <==> KeyOf(config.ledger.sheet) !in state.book
    ensures r.error.None? ==> state.cache.Keys <= r.state.cache.Keys
    ensures CacheBacked(state) ==> CacheBacked(r.state)
    ensures FindRecordByRequestId(state.book, config.ledger, requestId).Success? ==>
      var found := FindRecordByRequestId(state.book, config.ledger, requestId).value;
      && (found.None? ==> r.state.cache == state.cache)
      && (found.Some? ==> r.state.cache == state.cache[found.value.slackThreadTs := found.value])
  {
    match FindRecordByRequestId(state.book, config.ledger, requestId)
    case Failure(e) => Outcome(state, Some(Store(e)))
    case Success(None) => Outcome(state, None)
    case Success(Some(found)) =>
      FoundRowExists(state.book, config.ledger, None, Some(requestId));
      Outcome(state.(cache := state.cache[found.slackThreadTs := found]), None)
  }

  /** A lookup by thread that also keeps the cache backed by the ledger. */
  lemma LookupKeepsCacheBacked(state: State, config: Config, threadTs: string)
    requires GetRequestByThreadTs(state.cache, state.book, config.ledger, threadTs).Success?
    ensures
      var lookup := GetRequestByThreadTs(state.cache, state.book, config.ledger, threadTs).value;
      CacheBacked(state) ==>
        && CacheBacked(state.(cache := lookup.cache))
        && (lookup.record.Some? ==> RowExists(state.book, lookup.record.value))
  {
    if CacheBacked(state) && threadTs !in state.cache {
      var found := FindRecordByThreadTs(state.book, config.ledger, threadTs);
      if found.value.Some? {
        FoundRowExists(state.book, config.ledger, Some(threadTs), None);
      }
    }
  }

  // Reactions

  /** An approve or reject reaction on a request's thread writes the
      matching status; any other reaction is ignored. */
  function HandleReaction(state: State, config: Config, reaction: string, threadTs: string, updatedAt: string): (r: Outcome)
    ensures r.state.drive == state.drive
    ensures reaction != config.approveReaction && reaction != config.rejectReaction ==> r == Outcome(state, None)
    ensures CacheBacked(state) ==> CacheBacked(r.state)
  {
    if reaction != config.approveReaction && reaction != config.rejectReaction then Outcome(state, None)
    else
      match GetRequestByThreadTs(state.cache, state.book, config.ledger, threadTs)
      case Failure(e) => Outcome(state, Some(Store(e)))
      case Success(lookup) =>
        var s1 := state.(cache := lookup.cache);
        LookupKeepsCacheBacked(state, config, threadTs);
        match lookup.record
        case None => Outcome(s1, None)
        case Some(request) =>
          var status := if reaction == config.approveReaction then ApprovedStatus else RejectedStatus;
          match WriteStatus(s1.book, config, request, status, updatedAt)
          case Failure(e) => Outcome(s1, Some(Store(e)))
          case Success(book) =>
            CacheBackedGrows(s1.book, book, s1.cache);
            Refresh(s1.(book := book), config, request.requestId)
  }

  /** A reaction on a thread whose request is found (in the cache or in the
      ledger) and whose row exists writes approval or rejection into that
      row, whatever status the row had. */
  lemma ReactionSetsStatus(state: State, config: Config, reaction: string, threadTs: string, updatedAt: string)
    requires reaction == config.approveReaction || reaction == config.rejectReaction
    requires GetRequestByThreadTs(state.cache, state.book, config.ledger, threadTs).Success?
    requires GetRequestByThreadTs(state.cache, state.book, config.ledger, threadTs).value.record.Some?
    requires RowExists(state.book, GetRequestByThreadTs(state.cache, state.book, config.ledger, threadTs).value.record.value)
    requires KeyOf(config.ledger.sheet) in state.book
    ensures
      var r := HandleReaction(state, config, reaction, threadTs, updatedAt);
      var request := GetRequestByThreadTs(state.cache, state.book, config.ledger, threadTs).value.record.value;
      var key := TabKey(request.spreadsheetId, request.tabName);
      && r.error.None?
      && r.state.book[key][request.rowNumber.value - 1][14]
         == (if reaction == config.approveReaction then ApprovedStatus else RejectedStatus)
      && r.state.book[key][request.rowNumber.value - 1][17] == updatedAt
      && threadTs in r.state.cache
  {
    var request := GetRequestByThreadTs(state.cache, state.book, config.ledger, threadTs).value.record.value;
    var status := if reaction == config.approveReaction then ApprovedStatus else RejectedStatus;
    var book := WriteStatus(state.book, config, request, status, updatedAt).value;
    assert KeyOf(config.ledger.sheet) in book;
  }

  /** Approval does not lock a request: a reject reaction after an approve
      reaction leaves the request's row rejected. */
  lemma ApproveThenReject(state: State, config: Config, threadTs: string, t1: string, t2: string)
    requires config.approveReaction != config.rejectReaction
    requires CacheBacked(state) && threadTs in state.cache
    requires KeyOf(config.ledger.sheet) in state.book
    ensures
      var first := HandleReaction(state, config, config.approveReaction, threadTs, t1);
      var second := HandleReaction(first.state, config, config.rejectReaction, threadTs, t2);
      var request := first.state.cache[threadTs];
      && first.error.None? && second.error.None?
      && second.state.book[TabKey(request.spreadsheetId, request.tabName)][request.rowNumber.value - 1][14] == RejectedStatus
  {
    ReactionSetsStatus(state, config, config.approveReaction, threadTs, t1);
    var first := HandleReaction(state, config, config.approveReaction, threadTs, t1);
    assert CacheBacked(first.state);
    assert KeyOf(config.ledger.sheet) in first.state.book;
    ReactionSetsStatus(first.state, config, config.rejectReaction, threadTs, t2);
  }

  // Completion

  const UsageReply: string := "受付番号を指定してください (例: /expense-complete EXP-20250925-ABCD)"

  function NotFoundReply(requestId: string): string {
    "指定した受付番号 " + requestId + " の申請が見つかりませんでした。"
  }

  function CompletedReply(requestId: string): string {
    "受付番号 " + requestId + " を完了に更新しました。"
  }

  /** The state after a command, and the reply when the command returns
      one (none when it raises). */
  datatype Replied = Replied(outcome: Outcome, reply: Option<string>)

  /** Marks the request with the given id complete, in the ledger and in the
      thread cache. */
  function HandleCompleteCommand(state: State, config: Config, text: string, updatedAt: string): (r: Replied)
    ensures r.outcome.state.drive == state.drive
    ensures r.reply.Some? <==> r.outcome.error.None?
    ensures Trim(text) == [] ==> r == Replied(Outcome(state, None), Some(UsageReply))
    ensures Trim(text) != [] && FindRecordByRequestId(state.book, config.ledger, Trim(text)) == Success(None) ==>
      r == Replied(Outcome(state, None), Some(NotFoundReply(Trim(text))))
    ensures CacheBacked(state) ==> CacheBacked(r.outcome.state)
  {
    var requestId := Trim(text);
    if requestId == [] then Replied(Outcome(state, None), Some(UsageReply))
    else
      match FindRecordByRequestId(state.book, config.ledger, requestId)
      case Failure(e) => Replied(Outcome(state, Some(Store(e))), None)
      case Success(None) => Replied(Outcome(state, None), Some(NotFoundReply(requestId)))
      case Success(Some(request)) =>
        FoundRowExists(state.book, config.ledger, None, Some(requestId));
        CompleteFound(state, config, request, updatedAt)
  }

  /** Marks a request found in the ledger complete: its row reads the new
      status and time, and its thread caches it with them. */
  function CompleteFound(state: State, config: Config, request: Record, updatedAt: string): (r: Replied)
    requires RowExists(state.book, request)
    ensures r.outcome.state.drive == state.drive
    ensures r.outcome.error.None? && r.reply == Some(CompletedReply(request.requestId))
    ensures
      var key := TabKey(request.spreadsheetId, request.tabName);
      var n := request.rowNumber.value;
      && key in r.outcome.state.book && 1 <= n <= |r.outcome.state.book[key]|
      && |r.outcome.state.book[key][n - 1]| >= RowWidth
      && r.outcome.state.book[key][n - 1][14] == CompletedStatus
      && r.outcome.state.book[key][n - 1][17] == updatedAt
    ensures request.slackThreadTs in r.outcome.state.cache
    ensures r.outcome.state.cache[request.slackThreadTs] == request.(status := CompletedStatus, updatedAt := updatedAt)
    ensures CacheBacked(state) ==> CacheBacked(r.outcome.state)
  {
    match WriteStatus(state.book, config, request, CompletedStatus, updatedAt)
    case Failure(e) => Replied(Outcome(state, Some(Store(e))), None)
    case Success(book) =>
      CacheBackedGrows(state.book, book, state.cache);
      RowExistsGrows(state.book, book, request);
      var cache := state.cache[request.slackThreadTs := request.(status := CompletedStatus, updatedAt := updatedAt)];
      Replied(Outcome(State(book, state.drive, cache), None), Some(CompletedReply(request.requestId)))
  }

  /** Completing a request found by its id marks its row complete, and the
      cache entry of its thread agrees with the row read back, when the row
      has all its cells. */
  lemma CompleteMarksDone(state: State, config: Config, text: string, updatedAt: string)
    requires Trim(text) != []
    requires FindRecordByRequestId(state.book, config.ledger, Trim(text)).Success?
    requires FindRecordByRequestId(state.book, config.ledger, Trim(text)).value.Some?
    ensures
      var request := FindRecordByRequestId(state.book, config.ledger, Trim(text)).value.value;
      var r := HandleCompleteCommand(state, config, text, updatedAt);
      var key := KeyOf(config.ledger.sheet);
      var n := request.rowNumber.value;
      && r.reply == Some(CompletedReply(Trim(text)))
      && key in state.book && key in r.outcome.state.book
      && 1 <= n <= |state.book[key]| && n <= |r.outcome.state.book[key]|
      && |r.outcome.state.book[key][n - 1]| >= RowWidth
      && r.outcome.state.book[key][n - 1][14] == CompletedStatus
      && r.outcome.state.book[key][n - 1][17] == updatedAt
      && request.slackThreadTs in r.outcome.state.cache
      && r.outcome.state.cache[request.slackThreadTs] == request.(status := CompletedStatus, updatedAt := updatedAt)
      && (|state.book[key][n - 1]| >= RowWidth ==>
            r.outcome.state.cache[request.slackThreadTs]
            == RowToRecord(r.outcome.state.book[key][n - 1], config.ledger.sheet, n, config.ledger.currency))
  {
    var id := Trim(text);
    var sheet := config.ledger.sheet;
    var request := FindRecordByRequestId(state.book, config.ledger, id).value.value;
    FoundRowExists(state.book, config.ledger, None, Some(id));
    assert HandleCompleteCommand(state, config, text, updatedAt) == CompleteFound(state, config, request, updatedAt);
    ResolveConfiguredSheet(sheet);
    var n := request.rowNumber.value;
    var row := state.book[KeyOf(sheet)][n - 1];
    if |row| >= RowWidth {
      var u := StatusUpdates(CompletedStatus, updatedAt);
      var row' := UpdateRow(row, sheet, n, u, updatedAt);
      assert PadRow(row) == row;
      assert request == RowToRecord(row, sheet, n, config.ledger.currency);
      CompletedRowReadBack(row, sheet, n, updatedAt, config.ledger.currency);
    }
  }

  /** Reading back a full row after a status update gives the record read
      before it with the new status and time. */
  lemma CompletedRowReadBack(row: Row, sheet: SheetTarget, n: nat, updatedAt: string, currency: string)
    requires |row| >= RowWidth
    ensures
      var after := UpdateRow(row, sheet, n, StatusUpdates(CompletedStatus, updatedAt), updatedAt);
      RowToRecord(after, sheet, n, currency)
      == RowToRecord(row, sheet, n, currency).(status := CompletedStatus, updatedAt := updatedAt)
  {
    assert PadRow(row) == row;
  }

  // Receipts

  datatype SlackFile = SlackFile(id: string, mimetype: Option<string>, name: Option<string>, downloadUrl: Option<string>)

  /** A message in a channel: the thread it was posted in, if any, and its
      attached files. */
  datatype ReceiptEvent = ReceiptEvent(threadTs: Option<string>, files: seq<SlackFile>)

  /** What the outside world answers while a receipt is archived: whether
      the download succeeded, the drive's answers, and the current time. */
  datatype ReceiptEnv = ReceiptEnv(downloadOk: bool, answers: DriveAnswers, updatedAt: string)

  const DefaultMimeType: string := "application/octet-stream"

  /** The first link that is present. */
  function FirstLink(a: Option<string>, b: Option<string>): (r: Option<string>)
    ensures r.Some? <==> a.Some? || b.Some?
    ensures a.Some? ==> r == a
  {
    if a.Some? then a else b
  }

  /** What a stored receipt writes into the request's row. */
  function ReceiptUpdates(receipt: UploadedReceipt, updatedAt: string): Updates {
    Updates(None, Some(receipt.folderId), Some(receipt.name), FirstLink(receipt.webViewLink, receipt.webContentLink),
            Some(receipt.fileId), Some(ReceivedStatus), Some(updatedAt))
  }

  function ReceiptParamsOf(request: Record, file: SlackFile, date: Date): ReceiptParams {
    ReceiptParams(file.mimetype.GetOr(DefaultMimeType), request.requestId, date, request.applicantName,
                  request.amount, request.currency, request.expenseTitle, file.name)
  }

  /** Downloads the first file, stores it in the drive, and records it. */
  function ArchiveReceipt(state: State, config: Config, request: Record, file: SlackFile, env: ReceiptEnv): (r: Outcome)
    ensures file.downloadUrl.None? || file.downloadUrl.value == "" ==> r == Outcome(state, None)
    ensures file.downloadUrl.Some? && file.downloadUrl.value != "" && !env.downloadOk ==> r == Outcome(state, Some(DownloadFailed))
    ensures file.downloadUrl.Some? && file.downloadUrl.value != "" && env.downloadOk && ParseCalendarDate(request.usageDate).None? ==>
      r == Outcome(state, Some(InvalidUsageDate(request.usageDate)))
    ensures |state.drive| <= |r.state.drive| && r.state.drive[..|state.drive|] == state.drive
    ensures CacheBacked(state) ==> CacheBacked(r.state)
  {
    if file.downloadUrl.None? || file.downloadUrl.value == "" then Outcome(state, None)
    else if !env.downloadOk then Outcome(state, Some(DownloadFailed))
    else
      match ParseCalendarDate(request.usageDate)
      case None => Outcome(state, Some(InvalidUsageDate(request.usageDate)))
      case Some(date) =>
        RecordUpload(state, config, request,
                     UploadReceipt(state.drive, config.archive, ReceiptParamsOf(request, file, date), env.answers),
                     env.updatedAt)
  }

  /** Takes the drive the upload left behind; on success records the file in
      the request's row with the received status and refreshes the cache. */
  function RecordUpload(state: State, config: Config, request: Record, upload: Upload, updatedAt: string): (r: Outcome)
    ensures r.state.drive == upload.drive
    ensures upload.result.Failure? ==> r == Outcome(state.(drive := upload.drive), Some(Drive(upload.result.error)))
    ensures upload.result.Success? && !RowExists(state.book, request) ==>
      var key := TabKey(request.spreadsheetId, request.tabName);
      r.error == Some(Store(if key in state.book then RowNotFound(request.rowNumber, request.spreadsheetId) else TabNotFound(key)))
    ensures upload.result.Success? && RowExists(state.book, request) ==>
      (r.error.None? <==> KeyOf(config.ledger.sheet) in state.book)
    ensures CacheBacked(state) ==> CacheBacked(r.state)
  {
    var s2 := state.(drive := upload.drive);
    match upload.result
    case Failure(e) => Outcome(s2, Some(Drive(e)))
    case Success(receipt) =>
      var u := ReceiptUpdates(receipt, updatedAt);
      match UpdateRecord(s2.book, TargetOf(config, request), request.rowNumber, u, updatedAt)
      case Failure(e) =>
        assert KeyOf(TargetOf(config, request)) == TabKey(request.spreadsheetId, request.tabName);
        Outcome(s2, Some(Store(e)))
      case Success(book) =>
        UpdateGrows(s2.book, TargetOf(config, request), request.rowNumber, u, updatedAt);
        CacheBackedGrows(s2.book, book, s2.cache);
        Refresh(s2.(book := book), config, request.requestId)
  }

  /** A message with files in a request's thread archives the first file;
      a message outside a thread, without files, or in an unknown thread is
      ignored. */
  function HandleReceiptMessage(state: State, config: Config, event: ReceiptEvent, env: ReceiptEnv): (r: Outcome)
    ensures event.threadTs.None? || event.threadTs.value == "" || event.files == [] ==> r == Outcome(state, None)
    ensures |state.drive| <= |r.state.drive| && r.state.drive[..|state.drive|] == state.drive
    ensures CacheBacked(state) ==> CacheBacked(r.state)
  {
    if event.threadTs.None? || event.threadTs.value == "" || event.files == [] then Outcome(state, None)
    else
      match GetRequestByThreadTs(state.cache, state.book, config.ledger, event.threadTs.value)
      case Failure(e) => Outcome(state, Some(Store(e)))
      case Success(lookup) =>
        var s1 := state.(cache := lookup.cache);
        LookupKeepsCacheBacked(state, config, event.threadTs.value);
        match lookup.record
        case None => Outcome(s1, None)
        case Some(request) => ArchiveReceipt(s1, config, request, event.files[0], env)
  }

  /** A stored receipt for a request whose row exists is recorded in that
      row: the received status, the folder, the file name, the link (the
      view link, else the download link, else the old cell) and the file id. */
  lemma ReceiptRecorded(state: State, config: Config, request: Record, upload: Upload, updatedAt: string)
    requires upload.result.Success?
    requires RowExists(state.book, request) && KeyOf(config.ledger.sheet) in state.book
    ensures
      var r := RecordUpload(state, config, request, upload, updatedAt);
      var key := TabKey(request.spreadsheetId, request.tabName);
      var n := request.rowNumber.value;
      var receipt := upload.result.value;
      && r.error.None?
      && key in r.state.book && 1 <= n <= |r.state.book[key]| && |r.state.book[key][n - 1]| >= RowWidth
      && r.state.book[key][n - 1][14] == ReceivedStatus
      && r.state.book[key][n - 1][10] == receipt.folderId
      && r.state.book[key][n - 1][11] == receipt.name
      && r.state.book[key][n - 1][12]
         == FirstLink(receipt.webViewLink, receipt.webContentLink).GetOr(PadRow(state.book[key][n - 1])[12])
      && r.state.book[key][n - 1][13] == receipt.fileId
  {
    var u := ReceiptUpdates(upload.result.value, updatedAt);
    var target := TargetOf(config, request);
    var key := TabKey(request.spreadsheetId, request.tabName);
    var n := request.rowNumber.value;
    var book := UpdateRecord(state.book, target, request.rowNumber, u, updatedAt).value;
    assert book[key][n - 1] == UpdateRow(state.book[key][n - 1], target, n, u, updatedAt);
    assert KeyOf(config.ledger.sheet) in book;
  }

  // Registration

  /** The applicant's profile: real name and display name, when set. */
  datatype Profile = Profile(realName: Option<string>, displayName: Option<string>)

  /** The real name, else the display name, else a mention of the user. */
  function ResolveApplicantName(profile: Profile, userId: string): (r: string)
    ensures r != []
    ensures profile.realName.Some? && profile.realName.value != "" ==> r == profile.realName.value
    ensures (profile.realName.None? || profile.realName.value == "") && profile.displayName.Some? && profile.displayName.value != ""
            ==> r == profile.displayName.value
    ensures (profile.realName.None? || profile.realName.value == "") && (profile.displayName.None? || profile.displayName.value == "")
            ==> r == "<@" + userId + ">"
  {
    if profile.realName.Some? && profile.realName.value != "" then profile.realName.value
    else if profile.displayName.Some? && profile.displayName.value != "" then profile.displayName.value
    else "<@" + userId + ">"
  }

  /** The chat service's answer to the request message. */
  datatype PostResult = PostResult(ok: bool, ts: Option<string>, channel: Option<string>)

  predicate Posted(post: PostResult) {
    post.ok && post.ts.Some? && post.ts.value != "" && post.channel.Some? && post.channel.value != ""
  }

  /** What the outside world supplies while a request is registered: the
      applicant's profile, today's date and a random text for the id, the
      chat's answer, the current time, and the range the ledger reports. */
  datatype SubmitEnv = SubmitEnv(profile: Profile, today: Date, randomText: string, post: PostResult,
                                 now: string, updatedRange: Option<string>)

  datatype SubmissionResult = SubmissionResult(requestId: string, threadTs: string, channel: string, sheetRowUrl: Option<string>)

  datatype Submitted = Submitted(outcome: Outcome, result: Option<SubmissionResult>)

  function NewRequest(config: Config, userId: string, sub: Submission, env: SubmitEnv): AppendInput
    requires ValidDate(env.today) && ValidDate(sub.usageDate) && Posted(env.post)
  {
    AppendInput(GenerateRequestId(config.requestIdPrefix, env.today, env.randomText),
                env.post.ts.value, env.post.channel.value, userId,
                ResolveApplicantName(env.profile, userId), sub.expenseTitle, sub.amount,
                config.ledger.currency, FormatExtended(sub.usageDate), sub.remarks, config.ledger.sheet)
  }

  /** Announces a validated request, appends it to the configured sheet and
      caches it under its thread. */
  function Register(state: State, config: Config, userId: string, sub: Submission, env: SubmitEnv): (r: Submitted)
    requires ValidDate(env.today) && ValidDate(sub.usageDate)
    ensures r.result.Some? <==> r.outcome.error.None?
    ensures r.outcome.error.Some? ==> r.outcome.state == state
    ensures r.outcome.state.drive == state.drive
    ensures !Posted(env.post) ==> r.outcome.error == Some(PostFailed)
    ensures r.result.Some? ==>
      && r.result.value.requestId == GenerateRequestId(config.requestIdPrefix, env.today, env.randomText)
      && Posted(env.post) && r.result.value.threadTs == env.post.ts.value
      && r.result.value.threadTs in r.outcome.state.cache
      && r.outcome.state.cache[r.result.value.threadTs].requestId == r.result.value.requestId
      && r.outcome.state.cache[r.result.value.threadTs].status == PendingStatus
    ensures r.result.Some? ==>
      && Posted(env.post)
      && AppendRequest(state.book, NewRequest(config, userId, sub, env), env.now, env.updatedRange).Success?
      && var appended := AppendRequest(state.book, NewRequest(config, userId, sub, env), env.now, env.updatedRange).value;
      && r.outcome.state.book == appended.book
      && r.outcome.state.cache == state.cache[env.post.ts.value := appended.record]
  {
    if !Posted(env.post) then Submitted(Outcome(state, Some(PostFailed)), None)
    else
      var input := NewRequest(config, userId, sub, env);
      match AppendRequest(state.book, input, env.now, env.updatedRange)
      case Failure(e) => Submitted(Outcome(state, Some(Store(e))), None)
      case Success(appended) =>
        var ts := env.post.ts.value;
        var cache := state.cache[ts := appended.record];
        Submitted(Outcome(State(appended.book, state.drive, cache), None),
                  Some(SubmissionResult(input.requestId, ts, env.post.channel.value, appended.record.sheetRowUrl)))
  }

  /** The form as submitted, or the submission already validated. */
  function Validated(submission: Option<Submission>, values: FormValues): Result<Submission, map<string, string>>
  {
    if submission.Some? then Success(submission.value) else ParseSubmission(values)
  }

  /** Validates the form (unless already validated), then registers it. */
  function HandleModalSubmission(state: State, config: Config, userId: string, submission: Option<Submission>,
                                 values: FormValues, env: SubmitEnv): (r: Submitted)
    requires ValidDate(env.today)
    requires submission.Some? ==> ValidDate(submission.value.usageDate)
    ensures r.result.Some? <==> r.outcome.error.None?
    ensures r.outcome.error.Some? ==> r.outcome.state == state
    ensures r.outcome.state.drive == state.drive
    ensures submission.None? && ParseSubmission(values).Failure? ==>
      r.outcome.error == Some(Invalid(ParseSubmission(values).error))
    ensures r.result.Some? ==>
      && r.result.value.requestId == GenerateRequestId(config.requestIdPrefix, env.today, env.randomText)
      && Posted(env.post) && r.result.value.threadTs == env.post.ts.value
      && r.result.value.threadTs in r.outcome.state.cache
      && r.outcome.state.cache[r.result.value.threadTs].requestId == r.result.value.requestId
      && r.outcome.state.cache[r.result.value.threadTs].status == PendingStatus
    ensures r.result.Some? ==>
      && Validated(submission, values).Success?
      && var sub := Validated(submission, values).value;
      && ValidDate(sub.usageDate) && Posted(env.post)
      && AppendRequest(state.book, NewRequest(config, userId, sub, env), env.now, env.updatedRange).Success?
      && var appended := AppendRequest(state.book, NewRequest(config, userId, sub, env), env.now, env.updatedRange).value;
      && r.outcome.state.book == appended.book
      && r.outcome.state.cache == state.cache[env.post.ts.value := appended.record]
  {
    match Validated(submission, values)
    case Failure(errors) => Submitted(Outcome(state, Some(Invalid(errors))), None)
    case Success(sub) => Register(state, config, userId, sub, env)
  }

  /** When the ledger reports the row it appended, registering keeps every
      cached request backed by a ledger row, the new one included. */
  lemma SubmissionKeepsCacheBacked(state: State, config: Config, userId: string, submission: Option<Submission>,
                                   values: FormValues, env: SubmitEnv, sheetRef: string)
    requires ValidDate(env.today)
    requires submission.Some? ==> ValidDate(submission.value.usageDate)
    requires CacheBacked(state)
    requires forall i :: 0 <= i < |sheetRef| ==> sheetRef[i] != '!'
    requires KeyOf(config.ledger.sheet) in state.book
    requires env.updatedRange == Some(RowRange(sheetRef, |state.book[KeyOf(config.ledger.sheet)]| + 1))
    ensures CacheBacked(HandleModalSubmission(state, config, userId, submission, values, env).outcome.state)
  {
    var parsed := Validated(submission, values);
    if parsed.Success? {
      RegisterKeepsCacheBacked(state, config, userId, parsed.value, env, sheetRef);
    }
  }

  lemma RegisterKeepsCacheBacked(state: State, config: Config, userId: string, sub: Submission,
                                 env: SubmitEnv, sheetRef: string)
    requires ValidDate(env.today) && ValidDate(sub.usageDate)
    requires CacheBacked(state)
    requires forall i :: 0 <= i < |sheetRef| ==> sheetRef[i] != '!'
    requires KeyOf(config.ledger.sheet) in state.book
    requires env.updatedRange == Some(RowRange(sheetRef, |state.book[KeyOf(config.ledger.sheet)]| + 1))
    ensures CacheBacked(Register(state, config, userId, sub, env).outcome.state)
  {
    if Posted(env.post) {
      var input := NewRequest(config, userId, sub, env);
      assert input.sheetTarget == config.ledger.sheet;
      AppendKeepsCacheBacked(state, input, env.now, sheetRef, env.post.ts.value);
    }
  }

  /** Appending a request at the row the ledger reports and caching it keeps
      every cached request backed by a ledger row. */
  lemma AppendKeepsCacheBacked(state: State, input: AppendInput, now: string, sheetRef: string, ts: string)
    requires CacheBacked(state)
    requires forall i :: 0 <= i < |sheetRef| ==> sheetRef[i] != '!'
    requires KeyOf(input.sheetTarget) in state.book
    ensures
      var key := KeyOf(input.sheetTarget);
      var appended := AppendRequest(state.book, input, now, Some(RowRange(sheetRef, |state.book[key]| + 1)));
      && appended.Success?
      && CacheBacked(State(appended.value.book, state.drive, state.cache[ts := appended.value.record]))
  {
    var key := KeyOf(input.sheetTarget);
    var n := |state.book[key]| + 1;
    var range := Some(RowRange(sheetRef, n));
    ExtractRowRange(sheetRef, n);
    var appended := AppendRequest(state.book, input, now, range).value;
    assert appended.book[key][n - 1] == EncodeRow(input, now);
    AppendGrows(state.book, input, now, range);
    CacheBackedGrows(state.book, appended.book, state.cache);
    assert RowExists(appended.book, appended.record);
  }

  /** An append only adds a row: every non-empty row stays non-empty. */
  lemma AppendGrows(book: Workbook, input: AppendInput, now: string, range: Option<string>)
    requires KeyOf(input.sheetTarget) in book
    ensures BookGrows(book, AppendRequest(book, input, now, range).value.book)
  {
    var key := KeyOf(input.sheetTarget);
    var after := AppendRequest(book, input, now, range).value.book;
    forall k, i | k in book && 0 <= i < |book[k]| && book[k][i] != []
      ensures after[k][i] != []
    {
      if k == key {
        assert after[k][i] == book[k][i];
      }
    }
  }

  /** After registering, a receipt or reaction in the new thread finds the
      new request without reading the ledger. */
  lemma SubmissionThenThreadLookup(state: State, config: Config, userId: string, submission: Option<Submission>,
                                   values: FormValues, env: SubmitEnv, laterBook: Workbook)
    requires ValidDate(env.today)
    requires submission.Some? ==> ValidDate(submission.value.usageDate)
    requires HandleModalSubmission(state, config, userId, submission, values, env).result.Some?
    ensures
      var r := HandleModalSubmission(state, config, userId, submission, values, env);
      var lookup := GetRequestByThreadTs(r.outcome.state.cache, laterBook, config.ledger, r.result.value.threadTs);
      && lookup.Success? && lookup.value.record.Some?
      && lookup.value.record.value.requestId == r.result.value.requestId
      && lookup.value.record.value.status == PendingStatus
  {
  }
}
