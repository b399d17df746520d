/** Amounts. The bot keeps amounts as JavaScript numbers; the model keeps
    them as exact non-negative decimals, which is what `Number(...)` yields
    for the digit-and-dot text the bot feeds it, with `NaN` alongside. */
module Numbers {
  import opened Text

  /** `whole.frac`, with `frac` the fraction digits. */
  datatype Decimal = Decimal(whole: nat, frac: string)

  /** The one spelling of each value: fraction digits only, no trailing zero. */
  predicate Canonical(d: Decimal) {
    AllDigits(d.frac) && (d.frac == [] || d.frac[|d.frac| - 1] != '0')
  }

  /** Greater than zero (for a canonical decimal). */
  predicate IsPositive(d: Decimal) {
    d.whole > 0 || d.frac != []
  }

  /** A JavaScript number as far as amounts go. */
  datatype Number = Num(value: Decimal) | NaN

  predicate IsNumeralChar(c: char) {
    IsDigit(c) || c == '.'
  }

  predicate IsNonzeroDigit(c: char) {
    '1' <= c <= '9'
  }

  predicate AtMostOneDot(t: string) {
    forall i, j :: 0 <= i < j < |t| && t[i] == '.' ==> t[j] != '.'
  }

  predicate HasDigit(t: string) {
    exists i :: 0 <= i < |t| && IsDigit(t[i])
  }

  predicate HasNonzeroDigit(t: string) {
    exists i :: 0 <= i < |t| && IsNonzeroDigit(t[i])
  }

  /** Digits with at most one decimal point and at least one digit: the
      texts of digits and dots that `Number(...)` accepts. */
  predicate WellFormedNumeral(t: string) {
    && (forall i :: 0 <= i < |t| ==> IsNumeralChar(t[i]))
    && AtMostOneDot(t)
    && HasDigit(t)
  }

  /** Index of the first `.`, or the length when there is none. */
  function DotIndex(t: string, from: nat): (k: nat)
    requires from <= |t|
    ensures from <= k <= |t|
    ensures forall i :: from <= i < k ==> t[i] != '.'
    ensures k < |t| ==> t[k] == '.'
    decreases |t| - from
  {
    if from == |t| || t[from] == '.' then from else DotIndex(t, from + 1)
  }

  /** Drops the trailing zeros of a fraction. */
  function StripTrailingZeros(s: string): (r: string)
    ensures |r| <= |s| && r == s[..|r|]
    ensures r == [] || r[|r| - 1] != '0'
    ensures forall i :: |r| <= i < |s| ==> s[i] == '0'
  {
    if s != [] && s[|s| - 1] == '0' then StripTrailingZeros(s[..|s| - 1]) else s
  }

  lemma StripKeepsDigits(s: string)
    requires AllDigits(s)
    ensures AllDigits(StripTrailingZeros(s))
  {
    var r := StripTrailingZeros(s);
    assert forall i :: 0 <= i < |r| ==> r[i] == s[i];
  }

  /** A fraction is non-zero exactly when a non-zero digit survives. */
  lemma StripNonEmpty(s: string)
    requires AllDigits(s)
    ensures StripTrailingZeros(s) != [] <==> HasNonzeroDigit(s)
  {
    var r := StripTrailingZeros(s);
    if r != [] {
      assert r[|r| - 1] == s[|r| - 1];
      assert IsNonzeroDigit(s[|r| - 1]);
    } else {
      assert forall i :: 0 <= i < |s| ==> s[i] == '0';
    }
  }

  /** A digit run has a positive value exactly when it holds a non-zero digit. */
  lemma {:induction false} ParseDigitsPositive(s: string)
    requires AllDigits(s)
    ensures ParseDigits(s) > 0 <==> HasNonzeroDigit(s)
  {
    if s != [] {
      var p := s[..|s| - 1];
      ParseDigitsPositive(p);
      if HasNonzeroDigit(p) {
        var i :| 0 <= i < |p| && IsNonzeroDigit(p[i]);
        assert s[i] == p[i];
      }
      if HasNonzeroDigit(s) && !IsNonzeroDigit(s[|s| - 1]) {
        var i :| 0 <= i < |s| && IsNonzeroDigit(s[i]);
        assert i < |s| - 1 && p[i] == s[i];
      }
    }
  }

  /** `Number(t)` for a non-empty text without surrounding whitespace. */
  function ParseNumeral(t: string): (r: Number)
    ensures r.Num? ==> Canonical(r.value)
  {
    var k := DotIndex(t, 0);
    var ip := t[..k];
    var fp := if k < |t| then t[k + 1..] else [];
    if AllDigits(ip) && AllDigits(fp) && |ip| + |fp| >= 1 then
      StripKeepsDigits(fp);
      Num(Decimal(ParseDigits(ip), StripTrailingZeros(fp)))
    else
      NaN
  }

  /** `Number(t)` is a number exactly for a well-formed numeral, and a
      positive one exactly when some digit is non-zero. */
  lemma ParseNumeralSpec(t: string)
    ensures ParseNumeral(t).Num? <==> WellFormedNumeral(t)
    ensures ParseNumeral(t).Num? ==> (IsPositive(ParseNumeral(t).value) <==> HasNonzeroDigit(t))
  {
    var k := DotIndex(t, 0);
    var ip := t[..k];
    var fp := if k < |t| then t[k + 1..] else [];
    if AllDigits(ip) && AllDigits(fp) && |ip| + |fp| >= 1 {
      NumeralParts(t, k, ip, fp);
    } else {
      NotNumeral(t, k, ip, fp);
    }
  }

  /** The split at the first dot, when both sides are digits, is a well-formed
      numeral whose value is non-zero exactly when a digit is. */
  lemma NumeralParts(t: string, k: nat, ip: string, fp: string)
    requires k <= |t| && ip == t[..k] && (forall i :: 0 <= i < k ==> t[i] != '.')
    requires k < |t| ==> t[k] == '.' && fp == t[k + 1..]
    requires k == |t| ==> fp == []
    requires AllDigits(ip) && AllDigits(fp) && |ip| + |fp| >= 1
    ensures WellFormedNumeral(t)
    ensures (ParseDigits(ip) > 0 || StripTrailingZeros(fp) != []) <==> HasNonzeroDigit(t)
  {
    assert forall i :: 0 <= i < k ==> t[i] == ip[i];
    assert forall i :: k < i < |t| ==> t[i] == fp[i - k - 1];
    assert forall i :: 0 <= i < |t| ==> IsNumeralChar(t[i]);
    if |ip| >= 1 {
      assert IsDigit(t[0]);
    } else {
      assert IsDigit(t[k + 1]);
    }
    ParseDigitsPositive(ip);
    StripNonEmpty(fp);
    if HasNonzeroDigit(t) {
      var i :| 0 <= i < |t| && IsNonzeroDigit(t[i]);
      if i < k {
        assert IsNonzeroDigit(ip[i]);
      } else {
        assert IsNonzeroDigit(fp[i - k - 1]);
      }
    }
    if HasNonzeroDigit(ip) {
      var i :| 0 <= i < |ip| && IsNonzeroDigit(ip[i]);
      assert t[i] == ip[i];
    }
    if HasNonzeroDigit(fp) {
      var i :| 0 <= i < |fp| && IsNonzeroDigit(fp[i]);
      assert t[k + 1 + i] == fp[i];
    }
  }

  /** When a side of the first dot is not all digits, or there is no digit,
      the text is not a well-formed numeral. */
  lemma NotNumeral(t: string, k: nat, ip: string, fp: string)
    requires k <= |t| && ip == t[..k] && (forall i :: 0 <= i < k ==> t[i] != '.')
    requires k < |t| ==> t[k] == '.' && fp == t[k + 1..]
    requires k == |t| ==> fp == []
    requires !(AllDigits(ip) && AllDigits(fp) && |ip| + |fp| >= 1)
    ensures !WellFormedNumeral(t)
  {
    if !AllDigits(ip) {
      var i :| 0 <= i < |ip| && !IsDigit(ip[i]);
      assert t[i] == ip[i];
      assert !IsNumeralChar(t[i]);
    } else if !AllDigits(fp) {
      var i :| 0 <= i < |fp| && !IsDigit(fp[i]);
      assert t[k + 1 + i] == fp[i];
      if fp[i] == '.' {
        assert t[k] == '.' && t[k + 1 + i] == '.';
        assert !AtMostOneDot(t);
      } else {
        assert !IsNumeralChar(t[k + 1 + i]);
      }
    } else {
      assert |t| <= 1;
      assert forall i :: 0 <= i < |t| ==> !IsDigit(t[i]);
    }
  }

  /** `Number(s)` for text of whitespace, digits and dots: whitespace around
      the numeral is ignored and blank text is 0. */
  function ParseNumber(s: string): (r: Number)
    ensures Trim(s) == [] ==> r == Num(Decimal(0, []))
    ensures r.Num? ==> Canonical(r.value)
  {
    var t := Trim(s);
    if t == [] then Num(Decimal(0, [])) else ParseNumeral(t)
  }

  /** `String(x)` for a finite amount: the shortest decimal spelling. */
  function DecimalToString(d: Decimal): (r: string)
    ensures |r| >= 1 && IsDigit(r[0])
  {
    NatToString(d.whole) + FracSuffix(d.frac)
  }

  /** The fraction digits after a `.`, or nothing for a whole number. */
  function FracSuffix(frac: string): string {
    if frac == [] then "" else "." + frac
  }

  /** The spelling of an amount is made of digits and at most one dot. */
  lemma DecimalToStringNumeral(d: Decimal)
    requires Canonical(d)
    ensures WellFormedNumeral(DecimalToString(d))
  {
    var w := NatToString(d.whole);
    var s := DecimalToString(d);
    assert IsDigit(s[0]);
    if d.frac != [] {
      assert forall i :: 0 <= i < |w| ==> s[i] == w[i];
      assert s[|w|] == '.';
      assert forall i :: |w| + 1 <= i < |s| ==> s[i] == d.frac[i - |w| - 1];
    } else {
      assert s == w;
    }
  }

  /** `String(x)` for any number. */
  function NumberToString(n: Number): string {
    match n
    case Num(d) => DecimalToString(d)
    case NaN => "NaN"
  }

  /** Reading back the spelling of an amount gives the amount. */
  lemma ParseDecimalToString(d: Decimal)
    requires Canonical(d)
    ensures ParseNumber(DecimalToString(d)) == Num(d)
  {
    var w := NatToString(d.whole);
    var s := DecimalToString(d);
    assert AllDigits(w);
    var last := if d.frac == [] then w[|w| - 1] else d.frac[|d.frac| - 1];
    assert s[|s| - 1] == last;
    assert IsDigit(last);
    assert IsDigit(s[0]);
    TrimClean(s);
    assert Trim(s) == s;
    ParseNumeralParts(s, w, d.frac);
    ParseNatToString(d.whole);
  }

  /** A numeral spelled as digits, optionally a dot and fraction digits,
      parses to those parts. */
  lemma ParseNumeralParts(s: string, w: string, f: string)
    requires AllDigits(w) && |w| >= 1 && AllDigits(f)
    requires f == [] || f[|f| - 1] != '0'
    requires s == w + FracSuffix(f)
    ensures ParseNumeral(s) == Num(Decimal(ParseDigits(w), f))
  {
    if f == [] {
      ParseNumeralWhole(w);
    } else {
      ParseNumeralFraction(s, w, f);
    }
  }

  lemma ParseNumeralWhole(w: string)
    requires AllDigits(w) && |w| >= 1
    ensures ParseNumeral(w) == Num(Decimal(ParseDigits(w), []))
  {
    assert forall i :: 0 <= i < |w| ==> w[i] != '.' by {
      forall i | 0 <= i < |w| ensures w[i] != '.' { assert IsDigit(w[i]); }
    }
    DotIndexAt(w, 0, |w|);
    assert w[..|w|] == w;
    assert StripTrailingZeros([]) == [];
  }

  lemma ParseNumeralFraction(s: string, w: string, f: string)
    requires AllDigits(w) && |w| >= 1 && AllDigits(f)
    requires f != [] && f[|f| - 1] != '0'
    requires s == w + "." + f
    ensures ParseNumeral(s) == Num(Decimal(ParseDigits(w), f))
  {
    assert forall i :: 0 <= i < |w| ==> s[i] != '.' by {
      forall i | 0 <= i < |w| ensures s[i] != '.' { assert s[i] == w[i] && IsDigit(w[i]); }
    }
    assert s[|w|] == '.';
    DotIndexAt(s, 0, |w|);
    assert s[..|w|] == w;
    assert s[|w| + 1..] == f;
    assert StripTrailingZeros(f) == f;
  }

  /** The first dot is where the scan first meets one. */
  lemma {:induction false} DotIndexAt(t: string, from: nat, m: nat)
    requires from <= m <= |t|
    requires forall i :: from <= i < m ==> t[i] != '.'
    requires m < |t| ==> t[m] == '.'
    ensures DotIndex(t, from) == m
    decreases m - from
  {
    if from < m {
      DotIndexAt(t, from + 1, m);
    }
  }

  predicate IsNotComma(c: char) {
    c != ','
  }

  /** Inserts `,` between groups of three digits counted from the right. */
  function GroupThousands(s: string): string
    decreases |s|
  {
    if |s| <= 3 then s else GroupThousands(s[..|s| - 3]) + "," + s[|s| - 3..]
  }

  /** Grouping adds one separator per full group of three digits after the
      first digit. */
  lemma {:induction false} GroupThousandsLength(s: string)
    requires |s| >= 1
    ensures |GroupThousands(s)| == |s| + (|s| - 1) / 3
    decreases |s|
  {
    if |s| > 3 {
      GroupThousandsLength(s[..|s| - 3]);
    }
  }

  /** The separators sit between groups of three counted from the right:
      a position holds `,` exactly when a multiple of four characters,
      counting it, lie from it to the end. */
  lemma {:induction false} GroupThousandsSeparators(s: string)
    requires AllDigits(s) && |s| >= 1
    ensures forall i :: 0 <= i < |GroupThousands(s)| ==>
      (GroupThousands(s)[i] == ',' <==> (|GroupThousands(s)| - i) % 4 == 0)
    decreases |s|
  {
    var g := GroupThousands(s);
    if |s| <= 3 {
      forall i | 0 <= i < |g|
        ensures g[i] == ',' <==> (|g| - i) % 4 == 0
      {
        assert IsDigit(s[i]);
      }
    } else {
      var h := s[..|s| - 3];
      var t := s[|s| - 3..];
      var gh := GroupThousands(h);
      GroupThousandsSeparators(h);
      var comma := ",";
      assert g == gh + comma + t;
      forall i | 0 <= i < |g|
        ensures g[i] == ',' <==> (|g| - i) % 4 == 0
      {
        if i < |gh| {
          assert g[i] == gh[i];
          assert |g| - i == (|gh| - i) + 4;
        } else if i > |gh| {
          assert g[i] == t[i - |gh| - 1] == s[|s| - 3 + (i - |gh| - 1)];
          assert IsDigit(s[|s| - 3 + (i - |gh| - 1)]);
        }
      }
    }
  }

  /** Removing the separators from a grouped digit run gives the run back. */
  lemma {:induction false} UngroupThousands(s: string)
    requires AllDigits(s)
    ensures Filter(GroupThousands(s), IsNotComma) == s
  {
    if |s| <= 3 {
      FilterAllKept(s, IsNotComma);
    } else {
      var head := s[..|s| - 3];
      var tail := s[|s| - 3..];
      var g := GroupThousands(head);
      assert GroupThousands(s) == g + "," + tail;
      assert AllDigits(head) by {
        forall i | 0 <= i < |head| ensures IsDigit(head[i]) { assert head[i] == s[i]; }
      }
      assert forall i :: 0 <= i < |tail| ==> IsNotComma(tail[i]) by {
        forall i | 0 <= i < |tail| ensures IsNotComma(tail[i]) { assert tail[i] == s[|s| - 3 + i]; }
      }
      UngroupThousands(head);
      UngroupStep(g, head, tail);
      assert head + tail == s;
    }
  }

  lemma UngroupStep(g: string, head: string, tail: string)
    requires Filter(g, IsNotComma) == head
    requires forall i :: 0 <= i < |tail| ==> IsNotComma(tail[i])
    ensures Filter(g + "," + tail, IsNotComma) == head + tail
  {
    var comma := ",";
    FilterConcat(g, comma, IsNotComma);
    FilterNoneKept(comma, IsNotComma);
    var a := Filter(g + comma, IsNotComma);
    assert a == head;
    FilterConcat(g + comma, tail, IsNotComma);
    FilterAllKept(tail, IsNotComma);
    assert Filter(g + comma + tail, IsNotComma) == a + tail;
  }

  /** The value of an amount with at most three fraction digits, counted in
      thousandths. */
  function Thousandths(d: Decimal): nat
    requires AllDigits(d.frac) && |d.frac| <= 3
  {
    d.whole * 1000 + ParseDigits(d.frac + Zeros(3 - |d.frac|))
  }

  /** Rounds to at most three fraction digits, half away from zero, the
      default precision of `Intl.NumberFormat`: a longer fraction is cut
      after three digits, and one thousandth is added when the first digit
      cut is 5 or more. */
  function Round3(d: Decimal): (r: Decimal)
    requires Canonical(d)
    ensures Canonical(r) && |r.frac| <= 3
    ensures |d.frac| <= 3 ==> r == d
    ensures |d.frac| > 3 ==>
      Thousandths(r) == d.whole * 1000 + ParseDigits(d.frac[..3]) + (if d.frac[3] >= '5' then 1 else 0)
  {
    if |d.frac| <= 3 then d
    else
      var up := if d.frac[3] >= '5' then 1 else 0;
      var scaled := d.whole * 1000 + ParseDigits(d.frac[..3]) + up;
      var digits := NatToString(scaled % 1000);
      SmallNatLength(scaled % 1000);
      var padded := Zeros(3 - |digits|) + digits;
      assert AllDigits(padded);
      StripKeepsDigits(padded);
      PaddedValue(scaled % 1000, padded);
      var r := Decimal(scaled / 1000, StripTrailingZeros(padded));
      assert Thousandths(r) == (scaled / 1000) * 1000 + scaled % 1000 == scaled;
      r
  }

  /** A three-digit field stripped of its trailing zeros and padded back
      reads as the number it was made from. */
  lemma PaddedValue(n: nat, padded: string)
    requires n < 1000
    requires |NatToString(n)| <= 3 && padded == Zeros(3 - |NatToString(n)|) + NatToString(n)
    ensures AllDigits(padded) && |padded| == 3
    ensures AllDigits(StripTrailingZeros(padded))
    ensures ParseDigits(StripTrailingZeros(padded) + Zeros(3 - |StripTrailingZeros(padded)|)) == n
  {
    var digits := NatToString(n);
    ParseNatToString(n);
    ParseDigitsZeros(3 - |digits|, digits);
    StripKeepsDigits(padded);
    var r := StripTrailingZeros(padded);
    assert r + Zeros(3 - |r|) == padded;
  }

  lemma SmallNatLength(n: nat)
    requires n < 1000
    ensures |NatToString(n)| <= 3
  {
    if n >= 10 {
      assert |NatToString(n)| == |NatToString(n / 10)| + 1;
      if n / 10 >= 10 {
        assert |NatToString(n / 10)| == |NatToString(n / 100)| + 1;
      }
    }
  }

  /** `new Intl.NumberFormat('ja-JP').format(x)`: the whole part grouped
      by thousands with `,`, at most three fraction digits. */
  function FormatJa(n: Number): string {
    match n
    case NaN => "NaN"
    case Num(d) =>
      if Canonical(d) then
        var q := Round3(d);
        GroupThousands(NatToString(q.whole)) + FracSuffix(q.frac)
      else DecimalToString(d)
  }

  /** For an amount with at most three fraction digits, the ja-JP rendering
      is `String(x)` with thousands separators inserted. */
  lemma FormatJaUngrouped(d: Decimal)
    requires Canonical(d) && |d.frac| <= 3
    ensures Filter(FormatJa(Num(d)), IsNotComma) == DecimalToString(d)
  {
    var w := NatToString(d.whole);
    var rest := FracSuffix(d.frac);
    assert FormatJa(Num(d)) == GroupThousands(w) + rest;
    FilterConcat(GroupThousands(w), rest, IsNotComma);
    UngroupThousands(w);
    assert forall i :: 0 <= i < |rest| ==> IsNotComma(rest[i]) by {
      forall i | 0 <= i < |rest| ensures IsNotComma(rest[i]) {
        if i > 0 { assert rest[i] == d.frac[i - 1]; }
      }
    }
    FilterAllKept(rest, IsNotComma);
  }

  /** 3500 is written 3,500. */
  lemma FormatJaExample()
    ensures FormatJa(Num(Decimal(3500, ""))) == "3,500"
  {
    assert NatToString(3) == "3";
    assert NatToString(35) == "35";
    assert NatToString(350) == "350";
    assert NatToString(3500) == "3500";
    assert GroupThousands("3500") == "3,500";
  }
}
