/** The receipt archive: a year folder and a month folder created on demand
    under a root folder, a receipt file named after the request, its
    extension taken from the original file name or the media type, and a
    domain-wide read permission whose benign refusals are ignored. The drive
    service is replaced by the list of its items in creation order, and a
    folder query is assumed to list them in that order (the code asks for no
    order and takes the first folder listed); the identifiers the service
    assigns and its answers to the upload and the permission call are
    parameters. */
module Archive {
  import opened Wrappers
  import opened Text
  import opened Numbers
  import opened Dates

  datatype DriveItem = DriveItem(id: string, name: string, parent: string, isFolder: bool, trashed: bool)

  /** The items of the drive, oldest first. */
  type Drive = seq<DriveItem>

  /** What the folder query selects: a folder, not in the trash, with this
      name, directly inside this parent. */
  predicate IsLiveFolder(item: DriveItem, parent: string, name: string) {
    item.isFolder && !item.trashed && item.parent == parent && item.name == name
  }

  /** Index of the first item at or after `i` that the folder query selects. */
  function FindFolderFrom(drive: Drive, parent: string, name: string, i: nat): (r: Option<nat>)
    requires i <= |drive|
    ensures r.Some? ==> i <= r.value < |drive| && IsLiveFolder(drive[r.value], parent, name)
    ensures r.Some? ==> forall j :: i <= j < r.value ==> !IsLiveFolder(drive[j], parent, name)
    ensures r.None? ==> forall j :: i <= j < |drive| ==> !IsLiveFolder(drive[j], parent, name)
    decreases |drive| - i
  {
    if i == |drive| then None
    else if IsLiveFolder(drive[i], parent, name) then Some(i)
    else FindFolderFrom(drive, parent, name, i + 1)
  }

  /** The first listed folder named `name` inside `parent`. */
  function FindFolder(drive: Drive, parent: string, name: string): Option<nat> {
    FindFolderFrom(drive, parent, name, 0)
  }

  /** Adding an item at the end does not change an earlier match, and is
      the match when there was none and it is selected itself. */
  lemma {:induction false} FindFolderFromAppend(drive: Drive, item: DriveItem, parent: string, name: string, i: nat)
    requires i <= |drive|
    ensures FindFolderFrom(drive + [item], parent, name, i)
         == if FindFolderFrom(drive, parent, name, i).Some? then FindFolderFrom(drive, parent, name, i)
            else if IsLiveFolder(item, parent, name) then Some(|drive|)
            else None
    decreases |drive| - i
  {
    var longer := drive + [item];
    if i == |drive| {
      assert longer[i] == item;
      if !IsLiveFolder(item, parent, name) {
        assert FindFolderFrom(longer, parent, name, i + 1) == None;
      }
    } else {
      assert longer[i] == drive[i];
      FindFolderFromAppend(drive, item, parent, name, i + 1);
    }
  }

  lemma FindFolderAppend(drive: Drive, item: DriveItem, parent: string, name: string)
    ensures FindFolder(drive + [item], parent, name)
         == if FindFolder(drive, parent, name).Some? then FindFolder(drive, parent, name)
            else if IsLiveFolder(item, parent, name) then Some(|drive|)
            else None
  {
    FindFolderFromAppend(drive, item, parent, name, 0);
  }

  /** The drive after a call, and the folder or file id the call returns. */
  datatype Ensured = Ensured(drive: Drive, id: string)

  /** The first folder the query lists, or a new one with the id the service
      assigns (`newId`) when it lists none. */
  function EnsureFolder(drive: Drive, parent: string, name: string, newId: string): (r: Ensured)
    ensures |drive| <= |r.drive| <= |drive| + 1 && r.drive[..|drive|] == drive
    ensures r.drive == drive <==> FindFolder(drive, parent, name).Some?
    ensures r.drive != drive ==> r.drive[|drive|] == DriveItem(newId, name, parent, true, false)
  {
    match FindFolder(drive, parent, name)
    case Some(i) => Ensured(drive, drive[i].id)
    case None => Ensured(drive + [DriveItem(newId, name, parent, true, false)], newId)
  }

  /** After the call, the folder query lists the folder the call returned
      first. */
  lemma EnsureFolderFinds(drive: Drive, parent: string, name: string, newId: string)
    ensures
      var r := EnsureFolder(drive, parent, name, newId);
      var found := FindFolder(r.drive, parent, name);
      found.Some? && r.drive[found.value].id == r.id
  {
    FindFolderAppend(drive, DriveItem(newId, name, parent, true, false), parent, name);
  }

  /** A second call finds the folder the first returned and creates nothing,
      whatever id the service would have assigned. */
  lemma EnsureFolderIdempotent(drive: Drive, parent: string, name: string, newId: string, otherId: string)
    ensures
      var r := EnsureFolder(drive, parent, name, newId);
      EnsureFolder(r.drive, parent, name, otherId) == r
  {
    EnsureFolderFinds(drive, parent, name, newId);
  }

  /** `yyyy/MM` under the root folder: the year folder first, then the month
      folder inside it. */
  function EnsureMonthlyFolder(drive: Drive, root: string, date: Date, yearId: string, monthId: string): (r: Ensured)
    ensures |drive| <= |r.drive| <= |drive| + 2 && r.drive[..|drive|] == drive
  {
    var year := EnsureFolder(drive, root, YearText(date), yearId);
    EnsureFolder(year.drive, year.id, MonthText(date), monthId)
  }

  /** The folder returned is the month folder the query lists first inside
      the year folder the query lists first inside the root. */
  lemma MonthlyFolderPath(drive: Drive, root: string, date: Date, yearId: string, monthId: string)
    ensures
      var r := EnsureMonthlyFolder(drive, root, date, yearId, monthId);
      var year := FindFolder(r.drive, root, YearText(date));
      && year.Some?
      && var month := FindFolder(r.drive, r.drive[year.value].id, MonthText(date));
      && month.Some?
      && r.drive[month.value].id == r.id
  {
    var y := EnsureFolder(drive, root, YearText(date), yearId);
    var r := EnsureFolder(y.drive, y.id, MonthText(date), monthId);
    EnsureFolderFinds(drive, root, YearText(date), yearId);
    var iy := FindFolder(y.drive, root, YearText(date)).value;
    FindFolderAppend(y.drive, DriveItem(monthId, MonthText(date), y.id, true, false), root, YearText(date));
    assert FindFolder(r.drive, root, YearText(date)) == Some(iy);
    assert r.drive[iy] == y.drive[iy];
    EnsureFolderFinds(y.drive, y.id, MonthText(date), monthId);
  }

  /** Asking again for the same month creates nothing and returns the same
      folder. */
  lemma MonthlyFolderIdempotent(drive: Drive, root: string, date: Date, yearId: string, monthId: string,
                                yearId2: string, monthId2: string)
    ensures
      var r := EnsureMonthlyFolder(drive, root, date, yearId, monthId);
      EnsureMonthlyFolder(r.drive, root, date, yearId2, monthId2) == r
  {
    var y := EnsureFolder(drive, root, YearText(date), yearId);
    var r := EnsureFolder(y.drive, y.id, MonthText(date), monthId);
    MonthlyFolderPath(drive, root, date, yearId, monthId);
    var iy := FindFolder(r.drive, root, YearText(date)).value;
    EnsureFolderFinds(drive, root, YearText(date), yearId);
    FindFolderAppend(y.drive, DriveItem(monthId, MonthText(date), y.id, true, false), root, YearText(date));
    assert r.drive[iy].id == y.id;
    assert EnsureFolder(r.drive, root, YearText(date), yearId2) == Ensured(r.drive, y.id);
    EnsureFolderIdempotent(y.drive, y.id, MonthText(date), monthId, monthId2);
  }

  // ---------------------------------------------------------------------
  // File names

  /** The characters the summary keeps: ASCII letters and digits, CJK
      ideographs U+4E00 to U+9FAF, hiragana U+3041 to U+3094, katakana
      U+30A1 to U+30F4, the marks ー 々 〆 〤, whitespace, `_` and `-`. */
  predicate IsAllowedSummaryChar(c: char) {
    || ('a' <= c <= 'z') || ('A' <= c <= 'Z') || ('0' <= c <= '9')
    || ('\U{4E00}' <= c <= '\U{9FAF}')
    || ('\U{3041}' <= c <= '\U{3094}')
    || ('\U{30A1}' <= c <= '\U{30F4}')
    || c == '\U{30FC}' || c == '\U{3005}' || c == '\U{3006}' || c == '\U{3024}'
    || IsWhitespace(c) || c == '_' || c == '-'
  }

  predicate IsVisible(c: char) {
    !IsWhitespace(c)
  }

  predicate IsVisibleAllowed(c: char) {
    IsAllowedSummaryChar(c) && IsVisible(c)
  }

  /** The summary with every other character removed, then trimmed. */
  function SanitizeSummary(summary: string): (r: string)
    ensures forall i :: 0 <= i < |r| ==> IsAllowedSummaryChar(r[i])
    ensures r == [] || (!IsWhitespace(r[0]) && !IsWhitespace(r[|r| - 1]))
  {
    var kept := Filter(summary, IsAllowedSummaryChar);
    var r := Trim(kept);
    assert forall i :: 0 <= i < |r| ==> IsAllowedSummaryChar(r[i]) by {
      forall i | 0 <= i < |r| ensures IsAllowedSummaryChar(r[i]) {
        assert r[i] in kept;
        var j :| 0 <= j < |kept| && kept[j] == r[i];
      }
    }
    r
  }

  /** Apart from whitespace, the sanitized summary holds exactly the allowed
      characters of the summary, in order. */
  lemma SanitizeSummaryContent(summary: string)
    ensures Filter(SanitizeSummary(summary), IsVisible) == Filter(summary, IsVisibleAllowed)
  {
    FilterOfTrim(Filter(summary, IsAllowedSummaryChar), IsVisible);
    FilterFilter(summary, IsAllowedSummaryChar, IsVisible, IsVisibleAllowed);
  }

  /** The sanitized summary is the whitelisted text with its outer
      whitespace removed and nothing else: inner whitespace stays. */
  lemma SanitizeSummaryBetween(summary: string)
    ensures var kept := Filter(summary, IsAllowedSummaryChar);
      SurroundedByWhitespace(kept, |kept| - |TrimStart(kept)|, SanitizeSummary(summary))
  {
    var kept := Filter(summary, IsAllowedSummaryChar);
    SanitizeIsTrim(summary);
    TrimmedBetween(kept, SanitizeSummary(summary));
  }

  /** Sanitizing is trimming the whitelisted characters. */
  lemma SanitizeIsTrim(summary: string)
    ensures SanitizeSummary(summary) == Trim(Filter(summary, IsAllowedSummaryChar))
  {
  }

  /** Sanitizing a sanitized summary changes nothing. */
  lemma SanitizeSummaryIdempotent(summary: string)
    ensures SanitizeSummary(SanitizeSummary(summary)) == SanitizeSummary(summary)
  {
    var once := SanitizeSummary(summary);
    FilterAllKept(once, IsAllowedSummaryChar);
    TrimClean(once);
  }

  /** The summary used when nothing is left after sanitizing and cutting. */
  const FallbackSummary: string := "expense"

  /** The sanitized summary cut to `maxLength` characters (a negative limit
      counts back from the end), or the fallback when that is empty. */
  function TruncateSummary(sanitized: string, maxLength: int): (r: string)
    ensures r != []
    ensures maxLength > 0 && sanitized != [] ==>
      StartsWith(sanitized, r) && |r| == if maxLength < |sanitized| then maxLength else |sanitized|
    ensures maxLength == 0 || sanitized == [] ==> r == FallbackSummary
    ensures maxLength < 0 ==>
      r == if |sanitized| + maxLength > 0 then sanitized[..|sanitized| + maxLength] else FallbackSummary
  {
    var cut := SliceFromStart(sanitized, maxLength);
    if cut == [] then FallbackSummary else cut
  }

  /** Index of the last `.` of `s`. */
  function LastDot(s: string): (r: Option<nat>)
    ensures r.Some? ==> r.value < |s| && s[r.value] == '.'
    ensures r.Some? ==> forall j :: r.value < j < |s| ==> s[j] != '.'
    ensures r.None? ==> forall j :: 0 <= j < |s| ==> s[j] != '.'
  {
    if s == [] then None
    else if s[|s| - 1] == '.' then Some(|s| - 1)
    else LastDot(s[..|s| - 1])
  }

  /** The match of `/\.([^.]+)$/` with its dot: the text from the last dot
      to the end, provided something follows that dot. */
  function ExtensionFromName(name: string): (r: Option<string>)
    ensures r.Some? ==> |r.value| >= 2 && r.value[0] == '.' && EndsWith(name, r.value)
    ensures r.Some? ==> forall j :: 1 <= j < |r.value| ==> r.value[j] != '.'
    ensures r.None? <==> (forall j :: 0 <= j < |name| ==> name[j] != '.') || name[|name| - 1] == '.'
  {
    match LastDot(name)
    case None => None
    case Some(k) => if k + 1 < |name| then Some(name[k..]) else None
  }

  /** The extensions of the media types the archive knows. */
  const MimeExtensions: map<string, string> := map[
    "image/jpeg" := ".jpg",
    "image/png" := ".png",
    "image/heic" := ".heic",
    "application/pdf" := ".pdf",
    "image/gif" := ".gif"]

  /** The extension of the original file name when it has one, else the
      extension of a known media type, else nothing. */
  function ResolveExtension(originalFilename: Option<string>, mimeType: string): (r: string)
    ensures r == [] || r[0] == '.'
    ensures originalFilename.Some? && ExtensionFromName(originalFilename.value).Some? ==>
      EndsWith(originalFilename.value, r) && |r| >= 2
    ensures r == [] <==>
      (originalFilename.None? || ExtensionFromName(originalFilename.value).None?) && mimeType !in MimeExtensions
    ensures originalFilename.Some? && ExtensionFromName(originalFilename.value).Some? ==>
      r == ExtensionFromName(originalFilename.value).value
    ensures (originalFilename.None? || ExtensionFromName(originalFilename.value).None?) && mimeType in MimeExtensions ==>
      r == MimeExtensions[mimeType]
  {
    var fromName := if originalFilename.Some? then ExtensionFromName(originalFilename.value) else None;
    match fromName
    case Some(e) => e
    case None => if mimeType in MimeExtensions then MimeExtensions[mimeType] else ""
  }

  /** A name whose last dot at `k` is followed by something keeps the text
      from that dot, whatever the media type. */
  lemma ResolveExtensionFromLastDot(name: string, mimeType: string, k: nat)
    requires k + 1 < |name| && name[k] == '.'
    requires forall j :: k < j < |name| ==> name[j] != '.'
    ensures ResolveExtension(Some(name), mimeType) == name[k..]
  {
  }

  lemma ResolveExtensionExamples()
    ensures ResolveExtension(Some("receipt.scan.PNG"), "image/jpeg") == ".PNG"
    ensures ResolveExtension(Some("receipt."), "application/pdf") == ".pdf"
    ensures ResolveExtension(None, "text/plain") == ""
  {
    assert LastDot("receipt.scan.PNG") == Some(12) by {
      assert "receipt.scan.PNG"[..15] == "receipt.scan.PN";
      assert "receipt.scan.PN"[..14] == "receipt.scan.P";
      assert "receipt.scan.P"[..13] == "receipt.scan.";
    }
    assert "receipt.scan.PNG"[12..] == ".PNG";
  }

  /** The parts of a receipt name joined by underscores, the amount
      directly followed by the currency and the summary by the extension. */
  function JoinReceiptName(dateText: string, applicantName: string, amountText: string, currency: string,
                           summaryText: string, extension: string): (r: string)
    ensures StartsWith(r, dateText + "_") && EndsWith(r, "_" + summaryText + extension)
    ensures |r| == |dateText| + |applicantName| + |amountText| + |currency| + |summaryText| + |extension| + 3
    ensures r[|dateText| + 1..|dateText| + 1 + |applicantName|] == applicantName
    ensures r[|dateText| + 1 + |applicantName|] == '_'
    ensures r[|dateText| + 2 + |applicantName|..|dateText| + 2 + |applicantName| + |amountText| + |currency|]
         == amountText + currency
  {
    var head := dateText + "_";
    var middle := applicantName + "_" + amountText + currency;
    var tail := "_" + summaryText + extension;
    StartsWithConcat(head, middle + tail);
    EndsWithConcat(head + middle, tail);
    MiddleParts(head, applicantName, amountText + currency, tail);
    head + middle + tail
  }

  /** The pieces of `head + applicant + "_" + amount + tail` at their offsets. */
  lemma MiddleParts(head: string, applicant: string, amount: string, tail: string)
    ensures var r := head + (applicant + "_" + amount) + tail;
      && r[|head|..|head| + |applicant|] == applicant
      && r[|head| + |applicant|] == '_'
      && r[|head| + |applicant| + 1..|head| + |applicant| + 1 + |amount|] == amount
  {
    var sep := "_";
    var r := head + (applicant + sep + amount) + tail;
    assert r == head + applicant + (sep + (amount + tail));
    assert r[|head|..|head| + |applicant|] == applicant;
    assert r[|head| + |applicant|] == sep[0];
    assert r[|head| + |applicant| + 1..|head| + |applicant| + 1 + |amount|] == amount;
  }

  /** `{yyyyMMdd}_{applicant}_{amount in ja-JP}{currency}_{summary}{ext}`. */
  function ReceiptFileName(date: Date, applicantName: string, amount: Number, currency: string,
                           summary: string, maxLength: int, extension: string): (r: string)
    requires ValidDate(date)
    ensures StartsWith(r, FormatBasic(date) + "_")
    ensures EndsWith(r, "_" + TruncateSummary(SanitizeSummary(summary), maxLength) + extension)
    ensures |r| == 11 + |applicantName| + |FormatJa(amount)| + |currency|
                   + |TruncateSummary(SanitizeSummary(summary), maxLength)| + |extension|
    ensures r[9..9 + |applicantName|] == applicantName && r[9 + |applicantName|] == '_'
    ensures r[10 + |applicantName|..10 + |applicantName| + |FormatJa(amount)| + |currency|]
         == FormatJa(amount) + currency
  {
    JoinReceiptName(FormatBasic(date), applicantName, FormatJa(amount), currency,
                    TruncateSummary(SanitizeSummary(summary), maxLength), extension)
  }

  /** A receipt of 3,500 JPY for lunch, used on 2025-09-12 by Taro and sent
      as `receipt` of type `image/png`. */
  lemma ReceiptFileNameExample(date: Date, summary: string, original: string)
    requires date == Date(2025, 9, 12) && summary == "Lunch" && original == "receipt"
    ensures ReceiptFileName(date, "Taro", Num(Decimal(3500, "")), "JPY", summary, 20,
                            ResolveExtension(Some(original), "image/png"))
         == "20250912_Taro_3,500JPY_Lunch.png"
  {
    ExampleDateText(date);
    ExampleSummary(summary);
    ExampleExtension(original);
    FormatJaExample();
    ExampleJoin(FormatBasic(date), FormatJa(Num(Decimal(3500, ""))), summary, ".png");
  }

  lemma ExampleJoin(dateText: string, amountText: string, summary: string, extension: string)
    requires dateText == "20250912" && amountText == "3,500" && summary == "Lunch" && extension == ".png"
    ensures JoinReceiptName(dateText, "Taro", amountText, "JPY", summary, extension)
         == "20250912_Taro_3,500JPY_Lunch.png"
  {
    var head := dateText + "_";
    var middle := "Taro" + "_" + amountText + "JPY";
    var tail := "_" + summary + extension;
    assert head == "20250912_";
    assert middle == "Taro_3,500JPY";
    assert tail == "_Lunch.png";
    assert head + middle == "20250912_Taro_3,500JPY";
  }

  lemma ExampleDateText(date: Date)
    requires date == Date(2025, 9, 12)
    ensures FormatBasic(date) == "20250912"
  {
    YearText2025(date);
    MonthText9(date);
    assert DayText(date) == "12" by {
      assert NatToString(12) == "12" by { assert NatToString(1) == "1"; }
    }
    assert FormatBasic(date) == "2025" + "09" + "12";
  }

  lemma ExampleSummary(summary: string)
    requires summary == "Lunch"
    ensures TruncateSummary(SanitizeSummary(summary), 20) == summary
  {
    assert forall i :: 0 <= i < |summary| ==> IsAllowedSummaryChar(summary[i]);
    FilterAllKept(summary, IsAllowedSummaryChar);
    TrimClean(summary);
  }

  lemma ExampleExtension(original: string)
    requires original == "receipt"
    ensures ResolveExtension(Some(original), "image/png") == ".png"
  {
    assert forall j :: 0 <= j < |original| ==> original[j] != '.';
  }

  // ---------------------------------------------------------------------
  // Sharing and upload

  /** What the permission service answered: success, or an error with its
      message and the reason code of its first error entry, if any. */
  datatype PermissionOutcome = Granted | Refused(message: string, reason: Option<string>)

  /** A refusal that means the file is already readable by the domain. */
  predicate IsBenignRefusal(message: string, reason: Option<string>) {
    || Contains(message, "alreadyShared")
    || Contains(message, "duplicate")
    || Contains(message, "less than the inherited access")
    || reason == Some("cannotChangeInheritedAccess")
  }

  datatype ArchiveError = PermissionFailed(message: string, reason: Option<string>)

  /** The error a permission outcome leaves: none for a grant or a benign
      refusal, the refusal itself otherwise. */
  function DomainAccessError(outcome: PermissionOutcome): (r: Option<ArchiveError>)
    ensures r.Some? <==> outcome.Refused? && !IsBenignRefusal(outcome.message, outcome.reason)
    ensures r.Some? ==> r.value == PermissionFailed(outcome.message, outcome.reason)
  {
    match outcome
    case Granted => None
    case Refused(m, reason) => if IsBenignRefusal(m, reason) then None else Some(PermissionFailed(m, reason))
  }

  lemma BenignRefusalExamples()
    ensures DomainAccessError(Refused("The permission is a duplicate", None)).None?
    ensures DomainAccessError(Refused("Forbidden", Some("cannotChangeInheritedAccess"))).None?
    ensures DomainAccessError(Refused("Denied", Some("insufficientPermissions"))).Some?
  {
    var m := "The permission is a duplicate";
    assert OccursAt(m, "duplicate", 20);
  }

  datatype ArchiveConfig = ArchiveConfig(rootFolderId: string, sharingDomain: Option<string>, maxFilenameTitleLength: int)

  /** A domain counts only when it is a non-empty text. */
  predicate SharesWithDomain(config: ArchiveConfig) {
    config.sharingDomain.Some? && config.sharingDomain.value != ""
  }

  datatype ReceiptParams = ReceiptParams(
    mimeType: string,
    requestId: string,
    usageDate: Date,
    applicantName: string,
    amount: Number,
    currency: string,
    summary: string,
    originalFilename: Option<string>)

  /** The service's answer to the file upload. */
  datatype CreatedFile = CreatedFile(id: string, name: Option<string>, webViewLink: Option<string>, webContentLink: Option<string>)

  /** Everything the drive service decides during one upload: the ids of
      folders it would create, the uploaded file, and the permission answer. */
  datatype DriveAnswers = DriveAnswers(yearFolderId: string, monthFolderId: string, file: CreatedFile, permission: PermissionOutcome)

  datatype UploadedReceipt = UploadedReceipt(
    fileId: string,
    webViewLink: Option<string>,
    webContentLink: Option<string>,
    name: string,
    folderId: string)

  /** The drive after an upload (folders and file stay even when sharing
      fails afterwards) and the upload's outcome. */
  datatype Upload = Upload(drive: Drive, result: Result<UploadedReceipt, ArchiveError>)

  function ReceiptName(config: ArchiveConfig, params: ReceiptParams): string
    requires ValidDate(params.usageDate)
  {
    ReceiptFileName(params.usageDate, params.applicantName, params.amount, params.currency,
                    params.summary, config.maxFilenameTitleLength,
                    ResolveExtension(params.originalFilename, params.mimeType))
  }

  /** Ensures the month folder, stores the file in it under the receipt name,
      and shares it with the domain when one is configured. */
  function UploadReceipt(drive: Drive, config: ArchiveConfig, params: ReceiptParams, answers: DriveAnswers): (r: Upload)
    requires ValidDate(params.usageDate)
    ensures |drive| + 1 <= |r.drive| <= |drive| + 3 && r.drive[..|drive|] == drive
    ensures r.drive[|r.drive| - 1] == DriveItem(answers.file.id, ReceiptName(config, params), r.drive[|r.drive| - 1].parent, false, false)
    ensures r.result.Failure? <==>
      SharesWithDomain(config) && answers.permission.Refused?
      && !IsBenignRefusal(answers.permission.message, answers.permission.reason)
    ensures r.result.Success? ==>
      && r.result.value.fileId == answers.file.id
      && r.result.value.folderId == r.drive[|r.drive| - 1].parent
      && r.result.value.name == answers.file.name.GetOr(ReceiptName(config, params))
      && r.result.value.webViewLink == answers.file.webViewLink
      && r.result.value.webContentLink == answers.file.webContentLink
  {
    var name := ReceiptName(config, params);
    var drive' := StoreFile(drive, config.rootFolderId, params.usageDate, answers, name);
    var error := if SharesWithDomain(config) then DomainAccessError(answers.permission) else None;
    match error
    case Some(e) => Upload(drive', Failure(e))
    case None =>
      Upload(drive', Success(UploadedReceipt(answers.file.id, answers.file.webViewLink, answers.file.webContentLink,
                                            answers.file.name.GetOr(name), drive'[|drive'| - 1].parent)))
  }

  /** The drive once the month folder is ensured and the file is stored in
      it under `name`. */
  function StoreFile(drive: Drive, root: string, date: Date, answers: DriveAnswers, name: string): (r: Drive)
    ensures |drive| + 1 <= |r| <= |drive| + 3 && r[..|drive|] == drive
    ensures r[|r| - 1] == DriveItem(answers.file.id, name, r[|r| - 1].parent, false, false)
  {
    var folder := EnsureMonthlyFolder(drive, root, date, answers.yearFolderId, answers.monthFolderId);
    var r := folder.drive + [DriveItem(answers.file.id, name, folder.id, false, false)];
    assert r[..|drive|] == folder.drive[..|drive|];
    r
  }

  /** The stored file sits in the month folder the query lists first inside
      the year folder the query lists first inside the root folder. */
  lemma StoreLandsInMonthFolder(drive: Drive, root: string, date: Date, answers: DriveAnswers, name: string)
    ensures
      var r := StoreFile(drive, root, date, answers, name);
      var year := FindFolder(r, root, YearText(date));
      && year.Some?
      && var month := FindFolder(r, r[year.value].id, MonthText(date));
      && month.Some?
      && r[month.value].id == r[|r| - 1].parent
  {
    var folder := EnsureMonthlyFolder(drive, root, date, answers.yearFolderId, answers.monthFolderId);
    var item := DriveItem(answers.file.id, name, folder.id, false, false);
    MonthlyFolderPath(drive, root, date, answers.yearFolderId, answers.monthFolderId);
    PathSurvivesAppend(folder.drive, item, root, YearText(date), MonthText(date), folder.id);
  }

  /** The uploaded file sits in the month folder the query lists first inside
      the year folder the query lists first inside the root folder. */
  lemma UploadLandsInMonthFolder(drive: Drive, config: ArchiveConfig, params: ReceiptParams, answers: DriveAnswers)
    requires ValidDate(params.usageDate)
    ensures
      var r := UploadReceipt(drive, config, params, answers);
      var file := r.drive[|r.drive| - 1];
      var year := FindFolder(r.drive, config.rootFolderId, YearText(params.usageDate));
      && year.Some?
      && var month := FindFolder(r.drive, r.drive[year.value].id, MonthText(params.usageDate));
      && month.Some?
      && r.drive[month.value].id == file.parent
  {
    UploadStores(drive, config, params, answers);
    StoreLandsInMonthFolder(drive, config.rootFolderId, params.usageDate, answers, ReceiptName(config, params));
  }

  /** A year/month path that leads to a folder still leads there once an
      item is added at the end. */
  lemma PathSurvivesAppend(d: Drive, item: DriveItem, root: string, yearName: string, monthName: string, id: string)
    requires FindFolder(d, root, yearName).Some?
    requires
      var m := FindFolder(d, d[FindFolder(d, root, yearName).value].id, monthName);
      m.Some? && d[m.value].id == id
    ensures
      var longer := d + [item];
      var year := FindFolder(longer, root, yearName);
      && year.Some?
      && var month := FindFolder(longer, longer[year.value].id, monthName);
      && month.Some?
      && longer[month.value].id == id
  {
    var iy := FindFolder(d, root, yearName).value;
    FindFolderAppend(d, item, root, yearName);
    assert (d + [item])[iy] == d[iy];
    var im := FindFolder(d, d[iy].id, monthName).value;
    FindFolderAppend(d, item, d[iy].id, monthName);
    assert (d + [item])[im] == d[im];
  }

  /** A second receipt for the same month creates no folder: the drive grows
      by the file alone, and both files share a folder. */
  lemma SecondUploadReusesFolders(drive: Drive, config: ArchiveConfig, p1: ReceiptParams, a1: DriveAnswers,
                                  p2: ReceiptParams, a2: DriveAnswers)
    requires ValidDate(p1.usageDate) && p2.usageDate == p1.usageDate
    ensures
      var first := UploadReceipt(drive, config, p1, a1);
      var second := UploadReceipt(first.drive, config, p2, a2);
      && |second.drive| == |first.drive| + 1
      && second.drive[|second.drive| - 1].parent == first.drive[|first.drive| - 1].parent
  {
    var root := config.rootFolderId;
    var date := p1.usageDate;
    var first := UploadReceipt(drive, config, p1, a1);
    UploadStores(drive, config, p1, a1);
    UploadStores(first.drive, config, p2, a2);
    SecondStoreReusesFolders(drive, root, date, a1, ReceiptName(config, p1), a2, ReceiptName(config, p2));
  }

  /** Whether or not sharing succeeds, the drive an upload leaves is the
      one storing the file leaves. */
  lemma UploadStores(drive: Drive, config: ArchiveConfig, params: ReceiptParams, answers: DriveAnswers)
    requires ValidDate(params.usageDate)
    ensures UploadReceipt(drive, config, params, answers).drive
         == StoreFile(drive, config.rootFolderId, params.usageDate, answers, ReceiptName(config, params))
  {
  }

  /** Storing a second file for the same month adds only the file, in the
      folder the first one went to. */
  lemma SecondStoreReusesFolders(drive: Drive, root: string, date: Date, a1: DriveAnswers, n1: string,
                                 a2: DriveAnswers, n2: string)
    ensures
      var first := StoreFile(drive, root, date, a1, n1);
      var second := StoreFile(first, root, date, a2, n2);
      && |second| == |first| + 1
      && second[|second| - 1].parent == first[|first| - 1].parent
  {
    var folder := EnsureMonthlyFolder(drive, root, date, a1.yearFolderId, a1.monthFolderId);
    var item := DriveItem(a1.file.id, n1, folder.id, false, false);
    var year := EnsureFolder(folder.drive + [item], root, YearText(date), a2.yearFolderId);
    MonthlyFolderIdempotent(drive, root, date, a1.yearFolderId, a1.monthFolderId, a2.yearFolderId, a2.monthFolderId);
    MonthlyFolderPath(drive, root, date, a1.yearFolderId, a1.monthFolderId);
    FindFolderAppend(folder.drive, item, root, YearText(date));
    var iy := FindFolder(folder.drive, root, YearText(date)).value;
    FindFolderAppend(folder.drive, item, folder.drive[iy].id, MonthText(date));
    assert year.drive == folder.drive + [item];
  }
}
