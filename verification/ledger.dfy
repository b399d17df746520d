/** The spreadsheet ledger: one request per 18-cell positional row, appended
    at the end of a tab, located by a linear scan below the header row, and
    updated column by column. The spreadsheet service is replaced by an
    abstract workbook: a map from (spreadsheet id, tab name) to the rows the
    service would return for that tab, header first. */
module Ledger {
  import opened Wrappers
  import opened Text
  import opened Numbers

  /** The cells of one sheet row, column A first. */
  type Row = seq<string>

  /** The rows of one tab: sheet row `n` is at index `n - 1`, so index 0 is
      the header row. */
  type Sheet = seq<Row>

  /** Columns A to R. */
  const RowWidth: nat := 18

  /** The status every request starts in and the status of a row whose
      status cell is absent. */
  const PendingStatus: string := "待機中"

  const SpreadsheetUrlPrefix: string := "https://docs.google.com/spreadsheets/d/"

  /** Where requests are written: a spreadsheet, a tab in it, and optionally
      the tab's numeric id for deep links. */
  datatype SheetTarget = SheetTarget(spreadsheetId: string, tabName: string, gid: Option<string>)

  datatype TabKey = TabKey(spreadsheetId: string, tabName: string)

  type Workbook = map<TabKey, Sheet>

  function KeyOf(t: SheetTarget): TabKey {
    TabKey(t.spreadsheetId, t.tabName)
  }

  /** The configured default sheet and currency. */
  datatype LedgerConfig = LedgerConfig(sheet: SheetTarget, currency: string)

  /** A request as read from or written to the ledger. `rowNumber` is `None`
      where the source holds `NaN`; the drive fields are `None` where it
      holds `undefined`. */
  datatype Record = Record(
    requestId: string,
    slackThreadTs: string,
    slackChannelId: string,
    applicantSlackId: string,
    applicantName: string,
    expenseTitle: string,
    amount: Number,
    currency: string,
    usageDate: string,
    remarks: string,
    driveFolderId: Option<string>,
    driveFileName: Option<string>,
    driveFileLink: Option<string>,
    driveFileId: Option<string>,
    status: string,
    sheetRowUrl: Option<string>,
    spreadsheetId: string,
    tabName: string,
    rowNumber: Option<nat>,
    createdAt: string,
    updatedAt: string)

  /** What a new request is appended with. */
  datatype AppendInput = AppendInput(
    requestId: string,
    slackThreadTs: string,
    slackChannelId: string,
    applicantSlackId: string,
    applicantName: string,
    expenseTitle: string,
    amount: Decimal,
    currency: string,
    usageDate: string,
    remarks: string,
    sheetTarget: SheetTarget)

  /** The columns an update may write; `None` leaves a column alone. */
  datatype Updates = Updates(
    remarks: Option<string>,
    driveFolderId: Option<string>,
    driveFileName: Option<string>,
    driveFileLink: Option<string>,
    driveFileId: Option<string>,
    status: Option<string>,
    updatedAt: Option<string>)

  datatype StoreError =
    | TabNotFound(key: TabKey)
    | RowNotFound(rowNumber: Option<nat>, spreadsheetId: string)

  datatype Appended = Appended(book: Workbook, record: Record)

  // ---------------------------------------------------------------------
  // Row links and range references

  /** A gid counts only when it is a non-empty text. */
  predicate HasGid(t: SheetTarget) {
    t.gid.Some? && t.gid.value != ""
  }

  function SpreadsheetEditUrl(spreadsheetId: string): string {
    SpreadsheetUrlPrefix + spreadsheetId + "/edit"
  }

  /** The deep link to a row: the spreadsheet's edit URL, then
      `#gid={gid}&range=A{row}` when the tab has a gid and `#range=A{row}`
      otherwise. */
  function BuildRowUrl(t: SheetTarget, rowNumber: nat): (r: string)
    ensures StartsWith(r, SpreadsheetEditUrl(t.spreadsheetId))
    ensures EndsWith(r, "range=A" + NatToString(rowNumber))
  {
    var base := SpreadsheetEditUrl(t.spreadsheetId);
    var digits := NatToString(rowNumber);
    var range := "range=A";
    if HasGid(t) then
      var head := base + "#gid=" + t.gid.value;
      var marker := "&range=A";
      RangeMarker(marker, range);
      RowUrlShape(base, head, marker, range, digits);
      head + marker + digits
    else
      var marker := "#range=A";
      RangeMarker(marker, range);
      RowUrlShape(base, base, marker, range, digits);
      base + marker + digits
  }

  /** The two shapes of a row link: with the tab's gid in the anchor when
      it has one, with the range alone otherwise. */
  lemma RowUrlForms(t: SheetTarget, rowNumber: nat)
    ensures HasGid(t) ==>
      BuildRowUrl(t, rowNumber)
      == SpreadsheetEditUrl(t.spreadsheetId) + "#gid=" + t.gid.value + "&range=A" + NatToString(rowNumber)
    ensures !HasGid(t) ==>
      BuildRowUrl(t, rowNumber) == SpreadsheetEditUrl(t.spreadsheetId) + "#range=A" + NatToString(rowNumber)
  {
  }

  lemma RangeMarker(marker: string, range: string)
    requires marker == "&range=A" || marker == "#range=A"
    requires range == "range=A"
    ensures |marker| >= 1 && marker[1..] == range
  {
  }

  /** A link made of a head that starts with the base, a one-character
      anchor and the range marker, and the row digits. */
  lemma RowUrlShape(base: string, head: string, marker: string, range: string, digits: string)
    requires StartsWith(head, base)
    requires |marker| >= 1 && marker[1..] == range
    ensures StartsWith(head + marker + digits, base)
    ensures EndsWith(head + marker + digits, range + digits)
  {
    var r := head + marker + digits;
    assert r[..|base|] == head[..|base|];
    assert r == (head + marker[..1]) + (range + digits) by {
      assert marker == marker[..1] + marker[1..];
    }
    EndsWithConcat(head + marker[..1], range + digits);
  }

  /** Different rows of one target get different links. */
  lemma RowUrlInjective(t: SheetTarget, m: nat, n: nat)
    requires BuildRowUrl(t, m) == BuildRowUrl(t, n)
    ensures m == n
  {
    var base := SpreadsheetEditUrl(t.spreadsheetId);
    var head := if HasGid(t) then base + "#gid=" + t.gid.value + "&range=A" else base + "#range=A";
    assert BuildRowUrl(t, m) == head + NatToString(m);
    assert BuildRowUrl(t, n) == head + NatToString(n);
    assert NatToString(m) == BuildRowUrl(t, m)[|head|..];
    NatToStringInjective(m, n);
  }

  /** `String(rowNumber)`, which is `NaN` for an unknown row. */
  function RowNumberText(rowNumber: Option<nat>): string {
    match rowNumber
    case Some(n) => NatToString(n)
    case None => "NaN"
  }

  /** Length of the run of `A`-`Z` starting at `i`. */
  function UpperRun(s: string, i: nat): (n: nat)
    requires i <= |s|
    ensures i + n <= |s|
    ensures forall j :: i <= j < i + n ==> IsAsciiUpper(s[j])
    ensures i + n < |s| ==> !IsAsciiUpper(s[i + n])
    decreases |s| - i
  {
    if i < |s| && IsAsciiUpper(s[i]) then 1 + UpperRun(s, i + 1) else 0
  }

  /** Length of the run of `0`-`9` starting at `i`. */
  function DigitRun(s: string, i: nat): (n: nat)
    requires i <= |s|
    ensures i + n <= |s|
    ensures AllDigits(s[i..i + n])
    ensures i + n < |s| ==> !IsDigit(s[i + n])
    decreases |s| - i
  {
    if i < |s| && IsDigit(s[i]) then
      var n := DigitRun(s, i + 1);
      assert s[i..i + 1 + n] == [s[i]] + s[i + 1..i + 1 + n];
      1 + n
    else 0
  }

  /** The match of `/!(?:[A-Z]+)(\d+):/` that starts at index `i`, as the
      value of its digit group. Upper-case letters and digits are disjoint,
      so both runs are taken whole. */
  function MatchAt(s: string, i: nat): Option<nat>
    requires i < |s|
  {
    if s[i] != '!' then None
    else
      var u := UpperRun(s, i + 1);
      var d := DigitRun(s, i + 1 + u);
      var e := i + 1 + u + d;
      if u >= 1 && d >= 1 && e < |s| && s[e] == ':' then Some(ParseDigits(s[i + 1 + u..e])) else None
  }

  /** Index of the leftmost match at or after `i`. */
  function FirstMatchIndex(s: string, i: nat): (r: Option<nat>)
    requires i <= |s|
    ensures r.Some? ==> i <= r.value < |s| && MatchAt(s, r.value).Some?
    ensures r.Some? ==> forall k :: i <= k < r.value ==> MatchAt(s, k).None?
    ensures r.None? ==> forall k :: i <= k < |s| ==> MatchAt(s, k).None?
    decreases |s| - i
  {
    if i == |s| then None
    else if MatchAt(s, i).Some? then Some(i)
    else FirstMatchIndex(s, i + 1)
  }

  /** The pattern matches at `k` and nowhere before it. */
  predicate IsLeftmostMatch(s: string, k: nat) {
    k < |s| && MatchAt(s, k).Some? && forall j :: 0 <= j < k ==> MatchAt(s, j).None?
  }

  /** The row number in the range the service reports for an append: the
      digits of the leftmost `!<letters><digits>:`, or `None` when the range
      is absent, empty or has no such part. */
  function ExtractRowNumber(range: Option<string>): (r: Option<nat>)
    ensures r.Some? ==> range.Some? && range.value != ""
    ensures r.Some? <==> range.Some? && exists k :: 0 <= k < |range.value| && MatchAt(range.value, k).Some?
    ensures r.Some? ==> exists k :: IsLeftmostMatch(range.value, k) && r == MatchAt(range.value, k)
  {
    if range.None? || range.value == "" then None
    else
      match FirstMatchIndex(range.value, 0)
      case Some(k) => MatchAt(range.value, k)
      case None => None
  }

  /** The A1 range of one full row, as the service reports an append:
      `{sheet}!A{n}:R{n}`. */
  function RowRange(sheetRef: string, n: nat): string {
    sheetRef + "!A" + NatToString(n) + ":R" + NatToString(n)
  }

  lemma {:induction false} DigitRunExact(s: string, i: nat, m: nat)
    requires i + m <= |s|
    requires AllDigits(s[i..i + m])
    requires i + m < |s| ==> !IsDigit(s[i + m])
    ensures DigitRun(s, i) == m
    decreases m
  {
    if m > 0 {
      assert IsDigit(s[i..i + m][0]);
      assert s[i + 1..i + m] == s[i..i + m][1..];
      DigitRunExact(s, i + 1, m - 1);
    }
  }

  /** A `!`, one upper-case letter, a digit run and a `:` match at the `!`. */
  lemma MatchAtShape(s: string, p: nat, m: nat)
    requires p + 2 + m < |s| && m >= 1
    requires s[p] == '!' && IsAsciiUpper(s[p + 1])
    requires AllDigits(s[p + 2..p + 2 + m]) && s[p + 2 + m] == ':'
    ensures MatchAt(s, p) == Some(ParseDigits(s[p + 2..p + 2 + m]))
  {
    assert IsDigit(s[p + 2..p + 2 + m][0]);
    assert UpperRun(s, p + 2) == 0;
    assert UpperRun(s, p + 1) == 1;
    DigitRunExact(s, p + 2, m);
  }

  /** The row number is read back from the range of an appended row, for
      any sheet reference free of `!`. */
  lemma ExtractRowRange(sheetRef: string, n: nat)
    requires forall i :: 0 <= i < |sheetRef| ==> sheetRef[i] != '!'
    ensures ExtractRowNumber(Some(RowRange(sheetRef, n))) == Some(n)
  {
    var s := RowRange(sheetRef, n);
    var digits := NatToString(n);
    var p := |sheetRef|;
    RowRangeShape(sheetRef, n);
    ParseNatToString(n);
    assert forall k :: 0 <= k < p ==> s[k] != '!' by {
      forall k | 0 <= k < p ensures s[k] != '!' { assert s[k] == s[..p][k] == sheetRef[k]; }
    }
    ExtractAt(s, p, |digits|, n);
  }

  /** A `!`, an upper-case letter, the digits of `n` and a `:`, with no `!`
      before them, give the row number `n`. */
  lemma ExtractAt(s: string, p: nat, m: nat, n: nat)
    requires m >= 1 && p + 2 + m < |s|
    requires s[p] == '!' && IsAsciiUpper(s[p + 1])
    requires AllDigits(s[p + 2..p + 2 + m]) && ParseDigits(s[p + 2..p + 2 + m]) == n
    requires s[p + 2 + m] == ':'
    requires forall k :: 0 <= k < p ==> s[k] != '!'
    ensures ExtractRowNumber(Some(s)) == Some(n)
  {
    MatchAtShape(s, p, m);
    LeftmostMatch(s, p);
  }

  /** Where the pieces of a row range sit. */
  lemma RowRangeShape(sheetRef: string, n: nat)
    ensures
      var s := RowRange(sheetRef, n);
      var digits := NatToString(n);
      var p := |sheetRef|;
      && p + 2 + |digits| < |s|
      && s[..p] == sheetRef
      && s[p] == '!' && IsAsciiUpper(s[p + 1])
      && s[p + 2..p + 2 + |digits|] == digits
      && s[p + 2 + |digits|] == ':'
  {
    var digits := NatToString(n);
    var bang := "!A";
    var colon := ":R";
    var s := sheetRef + bang + digits + colon + digits;
    var p := |sheetRef|;
    assert s == RowRange(sheetRef, n);
    assert s == sheetRef + (bang + digits + (colon + digits));
    assert s[..p] == sheetRef;
    assert s[p] == bang[0] && s[p + 1] == bang[1];
    assert s[p + 2..p + 2 + |digits|] == digits;
    assert s[p + 2 + |digits|] == colon[0];
  }

  /** With no `!` before index `p`, a match at `p` is the leftmost one. */
  lemma LeftmostMatch(s: string, p: nat)
    requires p < |s| && MatchAt(s, p).Some?
    requires forall k :: 0 <= k < p ==> s[k] != '!'
    ensures ExtractRowNumber(Some(s)) == MatchAt(s, p)
  {
    var r := FirstMatchIndex(s, 0);
    assert r.Some?;
    assert r.value == p;
  }

  // ---------------------------------------------------------------------
  // Row codec

  /** The cell at column `i`, absent past the end of the row. */
  function Cell(row: Row, i: nat): Option<string> {
    if i < |row| then Some(row[i]) else None
  }

  function CellOr(row: Row, i: nat, default: string): string {
    Cell(row, i).GetOr(default)
  }

  /** The row written for a new request: identifiers, applicant, title,
      amount, currency, usage date, remarks, four empty archive cells, the
      pending status, an empty row link, then created-at and updated-at. */
  function EncodeRow(input: AppendInput, now: string): (r: Row)
    ensures |r| == RowWidth
  {
    [ input.requestId, input.slackThreadTs, input.slackChannelId,
      input.applicantSlackId, input.applicantName, input.expenseTitle,
      DecimalToString(input.amount), input.currency, input.usageDate,
      input.remarks, "", "", "", "", PendingStatus, "", now, now ]
  }

  /** The record for the row at sheet row `rowNumber`. Absent cells fall
      back to the empty text, the configured currency or the pending status,
      an absent amount to 0, and an empty row link to the built one. */
  function RowToRecord(row: Row, target: SheetTarget, rowNumber: nat, defaultCurrency: string): (r: Record)
    ensures r.rowNumber == Some(rowNumber)
    ensures r.spreadsheetId == target.spreadsheetId && r.tabName == target.tabName
    ensures r.sheetRowUrl.Some? && r.sheetRowUrl.value != ""
    ensures |row| <= 14 ==> r.status == PendingStatus
    ensures |row| <= 7 ==> r.currency == defaultCurrency
    ensures |row| > 15 && row[15] == "" ==> r.sheetRowUrl == Some(BuildRowUrl(target, rowNumber))
    ensures |row| <= 15 ==> r.sheetRowUrl == Some(BuildRowUrl(target, rowNumber))
    ensures |row| > 15 && row[15] != "" ==> r.sheetRowUrl == Some(row[15])
    ensures |row| <= 4 ==> r.applicantName == ""
    ensures |row| <= 5 ==> r.expenseTitle == ""
    ensures |row| <= 6 ==> r.amount == Num(Decimal(0, ""))
    ensures |row| <= 8 ==> r.usageDate == ""
    ensures |row| <= 9 ==> r.remarks == ""
    ensures |row| <= 10 ==> r.driveFolderId.None? && r.driveFileName.None? && r.driveFileLink.None? && r.driveFileId.None?
    ensures |row| <= 16 ==> r.createdAt == ""
    ensures |row| <= 17 ==> r.updatedAt == ""
    ensures |row| >= RowWidth ==>
      && r.requestId == row[0] && r.slackThreadTs == row[1] && r.slackChannelId == row[2]
      && r.applicantSlackId == row[3] && r.applicantName == row[4] && r.expenseTitle == row[5]
      && r.amount == ParseNumber(row[6]) && r.currency == row[7] && r.usageDate == row[8] && r.remarks == row[9]
      && r.driveFolderId == Some(row[10]) && r.driveFileName == Some(row[11])
      && r.driveFileLink == Some(row[12]) && r.driveFileId == Some(row[13])
      && r.status == row[14] && r.createdAt == row[16] && r.updatedAt == row[17]
  {
    var link := CellOr(row, 15, "");
    Record(
      requestId := CellOr(row, 0, ""),
      slackThreadTs := CellOr(row, 1, ""),
      slackChannelId := CellOr(row, 2, ""),
      applicantSlackId := CellOr(row, 3, ""),
      applicantName := CellOr(row, 4, ""),
      expenseTitle := CellOr(row, 5, ""),
      amount := if 6 < |row| then ParseNumber(row[6]) else Num(Decimal(0, "")),
      currency := CellOr(row, 7, defaultCurrency),
      usageDate := CellOr(row, 8, ""),
      remarks := CellOr(row, 9, ""),
      driveFolderId := Cell(row, 10),
      driveFileName := Cell(row, 11),
      driveFileLink := Cell(row, 12),
      driveFileId := Cell(row, 13),
      status := CellOr(row, 14, PendingStatus),
      sheetRowUrl := Some(if link != "" then link else BuildRowUrl(target, rowNumber)),
      spreadsheetId := target.spreadsheetId,
      tabName := target.tabName,
      rowNumber := Some(rowNumber),
      createdAt := CellOr(row, 16, ""),
      updatedAt := CellOr(row, 17, ""))
  }

  // ---------------------------------------------------------------------
  // Append

  /** The record an append returns for the row number the service
      reported: the input's fields, no archive fields, the pending status,
      and a row link only for a known, non-zero row. */
  function AppendedRecord(input: AppendInput, now: string, rowNumber: Option<nat>): (r: Record)
    ensures r.status == PendingStatus && r.rowNumber == rowNumber
    ensures r.sheetRowUrl.Some? <==> rowNumber.Some? && rowNumber.value != 0
    ensures r.driveFolderId.None? && r.driveFileName.None? && r.driveFileLink.None? && r.driveFileId.None?
  {
    Record(
      requestId := input.requestId,
      slackThreadTs := input.slackThreadTs,
      slackChannelId := input.slackChannelId,
      applicantSlackId := input.applicantSlackId,
      applicantName := input.applicantName,
      expenseTitle := input.expenseTitle,
      amount := Num(input.amount),
      currency := input.currency,
      usageDate := input.usageDate,
      remarks := input.remarks,
      driveFolderId := None,
      driveFileName := None,
      driveFileLink := None,
      driveFileId := None,
      status := PendingStatus,
      sheetRowUrl := if rowNumber.Some? && rowNumber.value != 0 then Some(BuildRowUrl(input.sheetTarget, rowNumber.value)) else None,
      spreadsheetId := input.sheetTarget.spreadsheetId,
      tabName := input.sheetTarget.tabName,
      rowNumber := rowNumber,
      createdAt := now,
      updatedAt := now)
  }

  /** Appends the encoded row at the end of the target tab, leaving every
      other tab alone, and returns the record numbered by the row the service
      reports. */
  function AppendRequest(book: Workbook, input: AppendInput, now: string, updatedRange: Option<string>): (r: Result<Appended, StoreError>)
    ensures r.Failure? <==> KeyOf(input.sheetTarget) !in book
    ensures r.Success? ==>
      var key := KeyOf(input.sheetTarget);
      && r.value.book.Keys == book.Keys
      && r.value.book[key] == book[key] + [EncodeRow(input, now)]
      && (forall k :: k in book && k != key ==> r.value.book[k] == book[k])
    ensures r.Success? ==> r.value.record == AppendedRecord(input, now, ExtractRowNumber(updatedRange))
  {
    var key := KeyOf(input.sheetTarget);
    if key !in book then Failure(TabNotFound(key))
    else
      var record := AppendedRecord(input, now, ExtractRowNumber(updatedRange));
      Success(Appended(book[key := book[key] + [EncodeRow(input, now)]], record))
  }

  /** Decoding an appended row, at the row the service reports for it, gives
      back the record the append returned, except that the four archive
      cells read as present and empty. */
  lemma DecodeAppendedRow(input: AppendInput, now: string, n: nat, defaultCurrency: string)
    requires Canonical(input.amount) && n >= 1
    ensures RowToRecord(EncodeRow(input, now), input.sheetTarget, n, defaultCurrency)
         == Reread(AppendedRecord(input, now, Some(n)))
  {
    var row := EncodeRow(input, now);
    var rec := RowToRecord(row, input.sheetTarget, n, defaultCurrency);
    ParseDecimalToString(input.amount);
    assert rec.amount == Num(input.amount);
    assert rec.sheetRowUrl == Some(BuildRowUrl(input.sheetTarget, n));
  }

  // ---------------------------------------------------------------------
  // Update

  /** The row extended with empty cells to at least 18 cells. */
  function PadRow(row: Row): (r: Row)
    ensures |r| == if |row| < RowWidth then RowWidth else |row|
    ensures forall i :: 0 <= i < |row| ==> r[i] == row[i]
    ensures forall i :: |row| <= i < |r| ==> r[i] == ""
    decreases RowWidth - |row|
  {
    if |row| < RowWidth then PadRow(row + [""]) else row
  }

  /** The row after an update: columns 9 to 14 take the values the update
      carries, the row link is written only into an empty cell, the
      updated-at cell always takes the supplied time or `now`, and every
      other cell is kept. */
  function UpdateRow(row: Row, target: SheetTarget, rowNumber: nat, u: Updates, now: string): (r: Row)
    ensures |r| == |PadRow(row)|
    ensures forall i :: 0 <= i < |r| && (i <= 8 || i == 16 || i >= RowWidth) ==> r[i] == PadRow(row)[i]
    ensures r[9] == u.remarks.GetOr(PadRow(row)[9])
    ensures r[10] == u.driveFolderId.GetOr(PadRow(row)[10])
    ensures r[11] == u.driveFileName.GetOr(PadRow(row)[11])
    ensures r[12] == u.driveFileLink.GetOr(PadRow(row)[12])
    ensures r[13] == u.driveFileId.GetOr(PadRow(row)[13])
    ensures r[14] == u.status.GetOr(PadRow(row)[14])
    ensures PadRow(row)[15] != "" ==> r[15] == PadRow(row)[15]
    ensures PadRow(row)[15] == "" ==> r[15] == BuildRowUrl(target, rowNumber)
    ensures r[17] == u.updatedAt.GetOr(now)
  {
    var p := PadRow(row);
    var link := if p[15] == "" then BuildRowUrl(target, rowNumber) else p[15];
    p[9 := u.remarks.GetOr(p[9])]
     [10 := u.driveFolderId.GetOr(p[10])]
     [11 := u.driveFileName.GetOr(p[11])]
     [12 := u.driveFileLink.GetOr(p[12])]
     [13 := u.driveFileId.GetOr(p[13])]
     [14 := u.status.GetOr(p[14])]
     [15 := link]
     [17 := u.updatedAt.GetOr(now)]
  }

  /** The row link is first-write-wins: once an update has run, a later one
      leaves the link cell as it is, whatever target and row it is given. */
  lemma RowLinkFirstWriteWins(row: Row, t1: SheetTarget, n1: nat, u1: Updates, now1: string,
                              t2: SheetTarget, n2: nat, u2: Updates, now2: string)
    ensures UpdateRow(UpdateRow(row, t1, n1, u1, now1), t2, n2, u2, now2)[15]
         == UpdateRow(row, t1, n1, u1, now1)[15]
  {
    var once := UpdateRow(row, t1, n1, u1, now1);
    assert PadRow(once) == once;
    assert once[15] != "" by {
      if PadRow(row)[15] == "" {
        assert once[15] == BuildRowUrl(t1, n1);
      }
    }
  }

  /** Applying the same update twice is applying it once. */
  lemma UpdateRowIdempotent(row: Row, t: SheetTarget, n: nat, u: Updates, now: string)
    ensures UpdateRow(UpdateRow(row, t, n, u, now), t, n, u, now) == UpdateRow(row, t, n, u, now)
  {
    var once := UpdateRow(row, t, n, u, now);
    assert PadRow(once) == once;
    RowLinkFirstWriteWins(row, t, n, u, now, t, n, u, now);
  }

  /** An update that sets the status does not look at the status it
      replaces. */
  lemma UpdateRowIgnoresStatus(row: Row, s1: string, s2: string, t: SheetTarget, n: nat, u: Updates, now: string)
    requires |row| >= RowWidth && u.status.Some?
    ensures UpdateRow(row[14 := s1], t, n, u, now) == UpdateRow(row[14 := s2], t, n, u, now)
  {
    assert PadRow(row[14 := s1]) == row[14 := s1];
    assert PadRow(row[14 := s2]) == row[14 := s2];
  }

  /** The row at sheet row `n`, if the service returns one: a row past the
      end, or one with no cells, reads as missing. */
  function FetchRow(sheet: Sheet, rowNumber: Option<nat>): (r: Option<Row>)
    ensures r.Some? <==> rowNumber.Some? && 1 <= rowNumber.value <= |sheet| && sheet[rowNumber.value - 1] != []
    ensures r.Some? ==> r.value == sheet[rowNumber.value - 1]
  {
    match rowNumber
    case Some(n) => if 1 <= n <= |sheet| && sheet[n - 1] != [] then Some(sheet[n - 1]) else None
    case None => None
  }

  /** Reads the row, applies the update and writes the row back; nothing
      else in the workbook changes. Fails when the tab or the row is missing. */
  function UpdateRecord(book: Workbook, target: SheetTarget, rowNumber: Option<nat>, u: Updates, now: string): (r: Result<Workbook, StoreError>)
    ensures r.Failure? <==> KeyOf(target) !in book || FetchRow(book[KeyOf(target)], rowNumber).None?
    ensures r.Failure? && KeyOf(target) in book ==> r.error == RowNotFound(rowNumber, target.spreadsheetId)
    ensures r.Success? ==>
      var key := KeyOf(target);
      var n := rowNumber.value;
      && r.value.Keys == book.Keys
      && (forall k :: k in book && k != key ==> r.value[k] == book[k])
      && |r.value[key]| == |book[key]|
      && (forall i :: 0 <= i < |book[key]| && i != n - 1 ==> r.value[key][i] == book[key][i])
      && r.value[key][n - 1] == UpdateRow(book[key][n - 1], target, n, u, now)
  {
    var key := KeyOf(target);
    if key !in book then Failure(TabNotFound(key))
    else
      match FetchRow(book[key], rowNumber)
      case None => Failure(RowNotFound(rowNumber, target.spreadsheetId))
      case Some(row) =>
        var n := rowNumber.value;
        Success(book[key := book[key][n - 1 := UpdateRow(row, target, n, u, now)]])
  }

  /** An update leaves the decoded identifiers, applicant, title, amount,
      currency, usage date and creation time of a full row unchanged. */
  lemma UpdateKeepsImmutableFields(row: Row, t: SheetTarget, n: nat, u: Updates, now: string, c: string)
    requires |row| >= RowWidth
    ensures
      var before := RowToRecord(row, t, n, c);
      var after := RowToRecord(UpdateRow(row, t, n, u, now), t, n, c);
      && after.requestId == before.requestId
      && after.slackThreadTs == before.slackThreadTs
      && after.slackChannelId == before.slackChannelId
      && after.applicantSlackId == before.applicantSlackId
      && after.applicantName == before.applicantName
      && after.expenseTitle == before.expenseTitle
      && after.amount == before.amount
      && after.currency == before.currency
      && after.usageDate == before.usageDate
      && after.createdAt == before.createdAt
  {
    assert PadRow(row) == row;
  }

  // ---------------------------------------------------------------------
  // Lookup

  /** A key matches a cell only when it is present and non-empty. */
  predicate KeyMatches(row: Row, column: nat, key: Option<string>) {
    key.Some? && key.value != "" && column < |row| && row[column] == key.value
  }

  /** The scan's test: the thread cell (column B) equals the thread key, or
      the request-id cell (column A) equals the request-id key. */
  predicate RowMatches(row: Row, threadTs: Option<string>, requestId: Option<string>) {
    KeyMatches(row, 1, threadTs) || KeyMatches(row, 0, requestId)
  }

  /** Index of the first matching row at or after `i`. */
  function ScanFrom(rows: Sheet, i: nat, threadTs: Option<string>, requestId: Option<string>): (r: Option<nat>)
    ensures r.Some? ==> i <= r.value < |rows| && RowMatches(rows[r.value], threadTs, requestId)
    ensures r.Some? ==> forall j :: i <= j < r.value ==> !RowMatches(rows[j], threadTs, requestId)
    ensures r.None? ==> forall j :: i <= j < |rows| ==> !RowMatches(rows[j], threadTs, requestId)
    decreases |rows| - i
  {
    if i >= |rows| then None
    else if RowMatches(rows[i], threadTs, requestId) then Some(i)
    else ScanFrom(rows, i + 1, threadTs, requestId)
  }

  /** The first data row (the header at index 0 is skipped) that matches,
      decoded at sheet row `index + 1`. */
  function FindRecordInSheet(book: Workbook, target: SheetTarget, threadTs: Option<string>, requestId: Option<string>, defaultCurrency: string): (r: Result<Option<Record>, StoreError>)
    ensures r.Failure? <==> KeyOf(target) !in book
    ensures r.Success? && r.value.Some? ==>
      var rows := book[KeyOf(target)];
      var rec := r.value.value;
      && rec.rowNumber.Some? && 2 <= rec.rowNumber.value <= |rows|
      && rec.spreadsheetId == target.spreadsheetId && rec.tabName == target.tabName
      && RowMatches(rows[rec.rowNumber.value - 1], threadTs, requestId)
      && rec == RowToRecord(rows[rec.rowNumber.value - 1], target, rec.rowNumber.value, defaultCurrency)
      && forall j :: 1 <= j < rec.rowNumber.value - 1 ==> !RowMatches(rows[j], threadTs, requestId)
    ensures r.Success? && r.value.None? ==>
      forall j :: 1 <= j < |book[KeyOf(target)]| ==> !RowMatches(book[KeyOf(target)][j], threadTs, requestId)
  {
    var key := KeyOf(target);
    if key !in book then Failure(TabNotFound(key))
    else
      var rows := book[key];
      match ScanFrom(rows, 1, threadTs, requestId)
      case Some(i) => Success(Some(RowToRecord(rows[i], target, i + 1, defaultCurrency)))
      case None => Success(None)
  }

  /** Lookup by thread, always in the configured sheet. */
  function FindRecordByThreadTs(book: Workbook, config: LedgerConfig, threadTs: string): (r: Result<Option<Record>, StoreError>)
    ensures r.Failure? <==> KeyOf(config.sheet) !in book
    ensures r.Success? && r.value.Some? ==>
      threadTs != "" && r.value.value.slackThreadTs == threadTs
      && r.value.value.spreadsheetId == config.sheet.spreadsheetId
      && r.value.value.tabName == config.sheet.tabName
  {
    FindRecordInSheet(book, config.sheet, Some(threadTs), None, config.currency)
  }

  /** Lookup by request id, always in the configured sheet. */
  function FindRecordByRequestId(book: Workbook, config: LedgerConfig, requestId: string): (r: Result<Option<Record>, StoreError>)
    ensures r.Failure? <==> KeyOf(config.sheet) !in book
    ensures r.Success? && r.value.Some? ==>
      requestId != "" && r.value.value.requestId == requestId
      && r.value.value.rowNumber.Some? && r.value.value.rowNumber.value >= 2
      && r.value.value.spreadsheetId == config.sheet.spreadsheetId
      && r.value.value.tabName == config.sheet.tabName
  {
    FindRecordInSheet(book, config.sheet, None, Some(requestId), config.currency)
  }

  /** The record an append returns, with the archive cells read as present
      and empty: what reading the appended row back gives. */
  function Reread(record: Record): Record {
    record.(driveFolderId := Some(""), driveFileName := Some(""), driveFileLink := Some(""), driveFileId := Some(""))
  }

  /** When the service reports the range of the row it appended after the
      existing ones, the returned record carries that row's number, and
      fetching and decoding that row gives the returned record back. */
  lemma AppendThenFetch(book: Workbook, input: AppendInput, now: string, sheetRef: string, defaultCurrency: string)
    requires KeyOf(input.sheetTarget) in book && Canonical(input.amount)
    requires forall i :: 0 <= i < |sheetRef| ==> sheetRef[i] != '!'
    ensures
      var n := |book[KeyOf(input.sheetTarget)]| + 1;
      var appended := AppendRequest(book, input, now, Some(RowRange(sheetRef, n)));
      var row := FetchRow(appended.value.book[KeyOf(input.sheetTarget)], Some(n));
      && appended.Success?
      && appended.value.record.rowNumber == Some(n)
      && row.Some?
      && RowToRecord(row.value, input.sheetTarget, n, defaultCurrency) == Reread(appended.value.record)
  {
    var key := KeyOf(input.sheetTarget);
    var n := |book[key]| + 1;
    ExtractRowRange(sheetRef, n);
    var appended := AppendRequest(book, input, now, Some(RowRange(sheetRef, n)));
    assert appended.value.record == AppendedRecord(input, now, Some(n));
    assert appended.value.book[key][n - 1] == EncodeRow(input, now);
    DecodeAppendedRow(input, now, n, defaultCurrency);
  }

  /** A request appended to the configured sheet, under an id no data row
      carries yet, is found by that id at the appended row, and decodes to
      the record the append returned for that row. */
  lemma {:induction false} AppendThenFindByRequestId(book: Workbook, config: LedgerConfig, input: AppendInput, now: string)
    requires input.sheetTarget == config.sheet
    requires KeyOf(config.sheet) in book && |book[KeyOf(config.sheet)]| >= 1
    requires input.requestId != "" && Canonical(input.amount)
    requires forall j :: 1 <= j < |book[KeyOf(config.sheet)]| ==> !KeyMatches(book[KeyOf(config.sheet)][j], 0, Some(input.requestId))
    ensures
      var n := |book[KeyOf(config.sheet)]| + 1;
      var appended := AppendRequest(book, input, now, None);
      var found := FindRecordByRequestId(appended.value.book, config, input.requestId);
      && appended.Success?
      && found.Success?
      && found.value == Some(Reread(AppendedRecord(input, now, Some(n))))
  {
    var key := KeyOf(config.sheet);
    var rows := book[key];
    var rows' := AppendRequest(book, input, now, None).value.book[key];
    assert rows' == rows + [EncodeRow(input, now)];
    forall j | 1 <= j < |rows|
      ensures !RowMatches(rows'[j], None, Some(input.requestId))
    {
      assert rows'[j] == rows[j];
    }
    assert RowMatches(rows'[|rows|], None, Some(input.requestId));
    var scan := ScanFrom(rows', 1, None, Some(input.requestId));
    assert scan == Some(|rows|);
    DecodeAppendedRow(input, now, |rows| + 1, config.currency);
  }

  /** An empty key matches nothing. */
  lemma EmptyKeyNeverMatches(book: Workbook, config: LedgerConfig)
    requires KeyOf(config.sheet) in book
    ensures FindRecordByThreadTs(book, config, "") == Success(None)
    ensures FindRecordByRequestId(book, config, "") == Success(None)
  {
  }
}
