/** Request ids: `{prefix}-{yyyyMMdd}-{XXXX}`, where the date is today in
    the configured time zone and `XXXX` is the upper-cased last four
    characters of a random number written in base 36. The clock, the time
    zone and the random number are parameters. */
module RequestId {
  import opened Text
  import opened Dates

  /** The characters of a number written in base 36: digits, lower-case
      letters and the point. */
  predicate IsBase36Char(c: char) {
    IsDigit(c) || IsAsciiLower(c) || c == '.'
  }

  predicate IsUpperBase36Char(c: char) {
    IsDigit(c) || IsAsciiUpper(c) || c == '.'
  }

  /** The last four characters, upper-cased: from a base-36 text, at most
      four digits, capitals or points. */
  function RandomPart(randomText: string): (r: string)
    ensures |r| == if |randomText| < 4 then |randomText| else 4
    ensures forall i :: 0 <= i < |r| ==> !IsAsciiLower(r[i])
    ensures forall i :: 0 <= i < |r| && !IsAsciiLower(randomText[|randomText| - |r| + i]) ==>
      r[i] == randomText[|randomText| - |r| + i]
    ensures (forall i :: 0 <= i < |randomText| ==> IsBase36Char(randomText[i])) ==>
      forall i :: 0 <= i < |r| ==> IsUpperBase36Char(r[i])
  {
    var tail := LastChars(randomText, 4);
    assert forall i :: 0 <= i < |tail| ==> tail[i] == randomText[|randomText| - |tail| + i];
    UpperOfBase36(randomText, tail);
    ToUpperAscii(tail)
  }

  /** Upper-casing the tail of a base-36 text leaves only digits, capitals
      and points. */
  lemma UpperOfBase36(s: string, tail: string)
    requires |tail| <= |s| && tail == s[|s| - |tail|..]
    ensures (forall i :: 0 <= i < |s| ==> IsBase36Char(s[i])) ==>
      forall i :: 0 <= i < |tail| ==> IsUpperBase36Char(ToUpperAscii(tail)[i])
  {
    if forall i :: 0 <= i < |s| ==> IsBase36Char(s[i]) {
      var u := ToUpperAscii(tail);
      forall i | 0 <= i < |tail| ensures IsUpperBase36Char(u[i]) {
        assert tail[i] == s[|s| - |tail| + i];
        assert IsBase36Char(tail[i]);
      }
    }
  }

  /** Three parts joined by `-`, each recoverable by position. */
  function JoinRequestId(prefix: string, dateText: string, randomPart: string): (r: string)
    ensures |r| == |prefix| + |dateText| + 2 + |randomPart|
    ensures r[..|prefix|] == prefix && r[|prefix|] == '-'
    ensures r[|prefix| + 1..|prefix| + 1 + |dateText|] == dateText && r[|prefix| + 1 + |dateText|] == '-'
    ensures r[|prefix| + 2 + |dateText|..] == randomPart
    ensures StartsWith(r, prefix + "-")
  {
    var head := prefix + "-";
    var rest := dateText + "-" + randomPart;
    StartsWithConcat(head, rest);
    assert head + rest == prefix + "-" + dateText + "-" + randomPart;
    prefix + "-" + dateText + "-" + randomPart
  }

  /** `generateRequestId`: the prefix, the date of `today` in the basic
      format, and the random part, joined by `-`. */
  function GenerateRequestId(prefix: string, today: Date, randomText: string): (r: string)
    requires ValidDate(today)
    ensures |r| == |prefix| + 10 + |RandomPart(randomText)| && |r| <= |prefix| + 14
    ensures StartsWith(r, prefix + "-") && r[|prefix| + 9] == '-'
    ensures r[|prefix| + 1..|prefix| + 9] == FormatBasic(today)
    ensures r[|prefix| + 10..] == RandomPart(randomText)
  {
    var dateText := FormatBasic(today);
    var r := JoinRequestId(prefix, dateText, RandomPart(randomText));
    assert |dateText| == 8;
    r
  }

  /** Ids of different days differ, and so do ids with different random
      parts. */
  lemma RequestIdDays(prefix: string, d1: Date, r1: string, d2: Date, r2: string)
    requires ValidDate(d1) && ValidDate(d2)
    requires GenerateRequestId(prefix, d1, r1) == GenerateRequestId(prefix, d2, r2)
    ensures d1 == d2 && RandomPart(r1) == RandomPart(r2)
  {
    FormatBasicInjective(d1, d2);
  }

  /** Joined parts have nothing for `trim()` to remove when the first part
      does not start and the last does not end with whitespace. */
  lemma JoinRequestIdTrimmed(prefix: string, dateText: string, randomPart: string)
    requires prefix == [] || !IsWhitespace(prefix[0])
    requires randomPart == [] || !IsWhitespace(randomPart[|randomPart| - 1])
    ensures Trim(JoinRequestId(prefix, dateText, randomPart)) == JoinRequestId(prefix, dateText, randomPart)
  {
    var id := JoinRequestId(prefix, dateText, randomPart);
    if prefix != [] {
      assert id[0] == id[..|prefix|][0];
    }
    if randomPart != [] {
      assert id[|id| - 1] == id[|prefix| + 2 + |dateText|..][|randomPart| - 1];
    }
    TrimClean(id);
  }

  /** With a base-36 random text and a prefix that does not start with
      whitespace, the id has nothing for `trim()` to remove, so the id typed
      back into the completion command is looked up as it was issued. */
  lemma RequestIdTrimmed(prefix: string, today: Date, randomText: string)
    requires ValidDate(today)
    requires prefix == [] || !IsWhitespace(prefix[0])
    requires forall i :: 0 <= i < |randomText| ==> IsBase36Char(randomText[i])
    ensures Trim(GenerateRequestId(prefix, today, randomText)) == GenerateRequestId(prefix, today, randomText)
  {
    var tail := RandomPart(randomText);
    if tail != [] {
      UpperBase36NotWhitespace(tail[|tail| - 1]);
    }
    assert GenerateRequestId(prefix, today, randomText) == JoinRequestId(prefix, FormatBasic(today), tail);
    JoinRequestIdTrimmed(prefix, FormatBasic(today), tail);
  }

  lemma UpperBase36NotWhitespace(c: char)
    requires IsUpperBase36Char(c)
    ensures !IsWhitespace(c)
  {
  }

  /** The shape the completion command's example shows. */
  lemma RequestIdExample(today: Date)
    requires today == Date(2025, 9, 25)
    ensures GenerateRequestId("EXP", today, "0.k3n9abcd") == "EXP-20250925-ABCD"
  {
    RandomPartExample();
    FormatBasicExample();
    JoinExample("EXP", FormatBasic(today), RandomPart("0.k3n9abcd"));
  }

  lemma JoinExample(prefix: string, dateText: string, randomPart: string)
    requires prefix == "EXP" && dateText == "20250925" && randomPart == "ABCD"
    ensures JoinRequestId(prefix, dateText, randomPart) == "EXP-20250925-ABCD"
  {
    assert prefix + "-" == "EXP-";
    assert prefix + "-" + dateText == "EXP-20250925";
    assert prefix + "-" + dateText + "-" == "EXP-20250925-";
  }

  lemma RandomPartExample()
    ensures RandomPart("0.k3n9abcd") == "ABCD"
  {
    assert LastChars("0.k3n9abcd", 4) == "abcd";
    assert ToUpperAscii("abcd") == "ABCD";
  }
}
