/** Reading a money cell of a bank payout file into whole minor units. */
module PayoutAmount {
  import opened Wrappers

  const MAX_AMOUNT_MINOR := 1_000_000_000_000

  /** A cell as the spreadsheet reader delivers it. A floating or decimal number carries the exact value of
      its printed form; `repr` is the text Python would print for the cell. */
  datatype Cell =
    | Blank
    | Flag(flag: bool, repr: string)
    | Whole(number: int)
    | Floating(value: real, repr: string)
    | Exact(value: real, repr: string)
    | NotFinite(repr: string)
    | Text(text: string)
    | Other(repr: string)

  datatype AmountError = NotANumber | TooLarge

  // --- Text -----------------------------------------------------------------------------------------

  /** The characters Python counts as white space. */
  predicate IsSpace(c: char) {
    || '\U{9}' <= c <= '\U{d}' || '\U{1c}' <= c <= ' ' || c == '\U{85}' || c == '\U{a0}' || c == '\U{1680}'
    || '\U{2000}' <= c <= '\U{200a}' || c == '\U{2028}' || c == '\U{2029}' || c == '\U{202f}' || c == '\U{205f}'
    || c == '\U{3000}'
  }

  lemma SpaceIff(c: char)
    ensures IsSpace(c) <==> c as int in {
        9, 10, 11, 12, 13, 28, 29, 30, 31, 32, 0x85, 0xa0, 0x1680,
        0x2000, 0x2001, 0x2002, 0x2003, 0x2004, 0x2005, 0x2006, 0x2007, 0x2008, 0x2009, 0x200a,
        0x2028, 0x2029, 0x202f, 0x205f, 0x3000}
  {
  }

  function StripLeft(s: string): string {
    if s != "" && IsSpace(s[0]) then StripLeft(s[1..]) else s
  }

  function StripRight(s: string): string {
    if s != "" && IsSpace(s[|s| - 1]) then StripRight(s[..|s| - 1]) else s
  }

  function Strip(s: string): string { StripRight(StripLeft(s)) }

  /** The Indian "only" suffix at the end of a stripped text. */
  function DropTrailingDash(s: string): string {
    if |s| >= 2 && s[|s| - 2..] == "/-" then s[..|s| - 2] else s
  }

  predicate IsLetter(c: char, lower: char, upper: char) { c == lower || c == upper }

  predicate StartsWithInr(s: string) {
    |s| >= 3 && IsLetter(s[0], 'i', 'I') && IsLetter(s[1], 'n', 'N') && IsLetter(s[2], 'r', 'R')
  }

  predicate StartsWithRs(s: string) {
    |s| >= 2 && IsLetter(s[0], 'r', 'R') && IsLetter(s[1], 's', 'S')
  }

  const RUPEE_SIGN := '\U{20b9}'

  predicate IsSeparator(c: char) { c == ',' || IsSpace(c) }

  /** Removes currency words, the rupee sign, commas and white space, from left to right. */
  function RemoveNoise(s: string): string
    decreases |s|
  {
    if s == "" then ""
    else if StartsWithInr(s) then RemoveNoise(s[3..])
    else if StartsWithRs(s) then RemoveNoise(if |s| > 2 && s[2] == '.' then s[3..] else s[2..])
    else if s[0] == RUPEE_SIGN || IsSeparator(s[0]) then RemoveNoise(s[1..])
    else [s[0]] + RemoveNoise(s[1..])
  }

  predicate IsDigit(c: char) { '0' <= c <= '9' }

  lemma DigitIff(c: char)
    ensures IsDigit(c) <==> c in "0123456789"
  {
    if IsDigit(c) {
      assert "0123456789"[c as int - '0' as int] == c;
    }
  }

  predicate AllDigits(s: string) { forall i :: 0 <= i < |s| ==> IsDigit(s[i]) }

  function DigitRun(s: string): (n: nat)
    ensures n <= |s| && AllDigits(s[..n]) && (n < |s| ==> !IsDigit(s[n]))
  {
    if s == "" || !IsDigit(s[0]) then 0 else 1 + DigitRun(s[1..])
  }

  function DigitsValue(s: string): nat
    requires AllDigits(s)
  {
    if s == "" then 0 else 10 * DigitsValue(s[..|s| - 1]) + (s[|s| - 1] as int - '0' as int)
  }

  /** An optional minus, digits, and optionally a point with one or two more digits. */
  function ParseDecimal(s: string): Option<real> {
    var negative := s != "" && s[0] == '-';
    match ParseUnsigned(if negative then s[1..] else s)
    case Some(value) => Some(if negative then -value else value)
    case None => None
  }

  function ParseUnsigned(s: string): Option<real> {
    var n := DigitRun(s);
    if n == 0 then None
    else if n == |s| then Some(DigitsValue(s) as real)
    else
      var fraction := s[n + 1..];
      if s[n] == '.' && AllDigits(fraction) && 1 <= |fraction| <= 2 then
        Some(DigitsValue(s[..n]) as real + DigitsValue(fraction) as real / (if |fraction| == 1 then 10.0 else 100.0))
      else None
  }

  // --- The amount --------------------------------------------------------------------------------------

  /** Nearest whole number; a half goes away from zero. */
  function RoundHalfUp(x: real): int {
    if x >= 0.0 then (x + 0.5).Floor else -((-x + 0.5).Floor)
  }

  function Abs(x: real): real { if x < 0.0 then -x else x }

  function ToMinor(amount: real): Result<Option<int>, AmountError> {
    if Abs(amount) * 100.0 > MAX_AMOUNT_MINOR as real then Err(TooLarge) else Ok(Some(RoundHalfUp(amount * 100.0)))
  }

  function ParseText(text: string): Result<Option<int>, AmountError> {
    match ParseDecimal(RemoveNoise(DropTrailingDash(Strip(text))))
    case Some(amount) => ToMinor(amount)
    case None => Err(NotANumber)
  }

  /** Ok(None) is a blank cell. */
  function ParseAmountMinor(cell: Cell): Result<Option<int>, AmountError> {
    match cell
    case Blank => Ok(None)
    case Flag(_, _) => Err(NotANumber)
    case Whole(number) => ToMinor(number as real)
    case Floating(value, _) => ToMinor(value)
    case Exact(value, _) => ToMinor(value)
    case NotFinite(_) => Err(NotANumber)
    case Text(text) => if Strip(text) == "" then Ok(None) else ParseText(text)
    case Other(repr) => ParseText(repr)
  }

  /** A parsed amount never exceeds the cap, so it fits a signed 64-bit column many times over. */
  lemma ParsedAmountIsCapped(cell: Cell)
    ensures var result := ParseAmountMinor(cell);
      result.Ok? && result.value.Some? ==> -1_000_000_000_000 <= result.value.value <= 1_000_000_000_000
  {
  }

  function NumberIn(cell: Cell): real
    requires cell.Whole? || cell.Floating? || cell.Exact?
  {
    if cell.Whole? then cell.number as real else cell.value
  }

  /** A number cell of any kind is refused exactly when its magnitude is over the cap. Otherwise it gives the one
      nearest minor unit, a half going away from zero: above half a unit less than it, up to half a unit more. */
  lemma NumberCellIsNearestMinor(cell: Cell, minor: int)
    requires cell.Whole? || cell.Floating? || cell.Exact?
    ensures ParseAmountMinor(cell) == Err(TooLarge) <==>
      NumberIn(cell) > 10_000_000_000.0 || NumberIn(cell) < -10_000_000_000.0
    ensures ParseAmountMinor(cell).Err? ==> ParseAmountMinor(cell) == Err(TooLarge)
    ensures ParseAmountMinor(cell).Ok? ==> (ParseAmountMinor(cell) == Ok(Some(minor)) <==>
      var x := NumberIn(cell) * 100.0;
      if x >= 0.0 then minor as real - 0.5 <= x < minor as real + 0.5
      else minor as real - 0.5 < x <= minor as real + 0.5)
    ensures cell.Whole? && ParseAmountMinor(cell).Ok? ==> ParseAmountMinor(cell) == Ok(Some(100 * cell.number))
  {
  }

  // --- Printing ----------------------------------------------------------------------------------------

  function DigitChar(d: nat): char
    requires d < 10
  {
    ('0' as int + d) as char
  }

  function Digits(n: nat): (s: string)
    ensures s != "" && AllDigits(s)
  {
    if n < 10 then [DigitChar(n)] else Digits(n / 10) + [DigitChar(n % 10)]
  }

  function TwoDigits(n: nat): string
    requires n < 100
  {
    [DigitChar(n / 10), DigitChar(n % 10)]
  }

  function Magnitude(minor: int): nat { if minor < 0 then -minor else minor }

  /** The decimals kept show the whole amount. */
  predicate Suffice(decimals: nat, minor: int) {
    decimals == 2 || (decimals == 1 && Magnitude(minor) % 10 == 0) || (decimals == 0 && Magnitude(minor) % 100 == 0)
  }

  function Cents(cents: nat, decimals: nat): string
    requires cents < 100
  {
    if decimals == 0 then "" else if decimals == 1 then [DigitChar(cents / 10)] else TwoDigits(cents)
  }

  /** Minor units with up to two decimals: 123450 as "1234.50" or "1234.5", and 123400 also as "1234". */
  function FormatMinor(minor: int, decimals: nat): string {
    DecimalText(minor < 0, Digits(Magnitude(minor) / 100), Cents(Magnitude(minor) % 100, decimals))
  }

  lemma {:induction false} DigitsAreRead(n: nat)
    ensures DigitsValue(Digits(n)) == n
  {
    if n >= 10 {
      DigitsAreRead(n / 10);
      assert Digits(n)[..|Digits(n)| - 1] == Digits(n / 10);
    } else {
      assert Digits(n)[..0] == "";
    }
  }

  lemma TwoDigitsAreRead(n: nat)
    requires n < 100
    ensures AllDigits(TwoDigits(n)) && DigitsValue(TwoDigits(n)) == n
  {
    var s := TwoDigits(n);
    var tens := [DigitChar(n / 10)];
    assert tens[..0] == "" && DigitsValue(tens) == n / 10;
    assert s[..1] == tens;
  }

  lemma {:induction false} DigitRunStops(digits: string, rest: string)
    requires AllDigits(digits) && (rest == "" || !IsDigit(rest[0]))
    ensures DigitRun(digits + rest) == |digits|
    decreases |digits|
  {
    if digits == "" {
      assert digits + rest == rest;
    } else {
      assert (digits + rest)[1..] == digits[1..] + rest;
      DigitRunStops(digits[1..], rest);
    }
  }

  // --- The grammar of a decimal ------------------------------------------------------------------------

  /** A minus or none, digits, and after a point one or two more or neither. */
  function DecimalText(negative: bool, whole: string, fraction: string): string {
    (if negative then "-" else "") + (whole + (if fraction == "" then "" else "." + fraction))
  }

  predicate AreDecimalDigits(whole: string, fraction: string) {
    whole != "" && AllDigits(whole) && AllDigits(fraction) && |fraction| <= 2
  }

  function FractionValue(fraction: string): real
    requires AllDigits(fraction)
  {
    if fraction == "" then 0.0
    else DigitsValue(fraction) as real / (if |fraction| == 1 then 10.0 else 100.0)
  }

  lemma DecimalTextIsRead(negative: bool, whole: string, fraction: string)
    requires AreDecimalDigits(whole, fraction)
    ensures var magnitude := DigitsValue(whole) as real + FractionValue(fraction);
      ParseDecimal(DecimalText(negative, whole, fraction)) == Some(if negative then -magnitude else magnitude)
  {
    hide DigitsValue, ParseUnsigned, FractionValue;
    var unsigned := whole + if fraction == "" then "" else "." + fraction;
    UnsignedTextIsRead(whole, fraction);
    if negative {
      assert DecimalText(negative, whole, fraction)[0] == '-';
      assert DecimalText(negative, whole, fraction)[1..] == unsigned;
    } else {
      assert DecimalText(negative, whole, fraction) == unsigned;
      assert unsigned[0] == whole[0];
    }
  }

  lemma UnsignedTextIsRead(whole: string, fraction: string)
    requires AreDecimalDigits(whole, fraction)
    ensures ParseUnsigned(whole + if fraction == "" then "" else "." + fraction)
      == Some(DigitsValue(whole) as real + FractionValue(fraction))
  {
    hide DigitsValue, DigitRun;
    var rest := if fraction == "" then "" else "." + fraction;
    var unsigned := whole + rest;
    DigitRunStops(whole, rest);
    assert unsigned[..|whole|] == whole;
    if fraction == "" {
      assert unsigned == whole;
    } else {
      assert unsigned[|whole|] == '.';
      assert unsigned[|whole| + 1..] == fraction;
    }
  }

  ghost predicate IsDecimalText(s: string) {
    exists negative, whole, fraction :: AreDecimalDigits(whole, fraction) && s == DecimalText(negative, whole, fraction)
  }

  /** Those texts are read, and no others. */
  lemma ReadsDecimalTextIff(s: string)
    ensures ParseDecimal(s).Some? <==> IsDecimalText(s)
  {
    hide ParseUnsigned;
    forall negative, whole, fraction | AreDecimalDigits(whole, fraction)
      ensures ParseDecimal(DecimalText(negative, whole, fraction)).Some?
    {
      DecimalTextIsRead(negative, whole, fraction);
    }
    if ParseDecimal(s).Some? {
      var negative := s != "" && s[0] == '-';
      var unsigned := if negative then s[1..] else s;
      assert s == (if negative then "-" else "") + unsigned;
      var whole, fraction := PartsOfUnsigned(unsigned);
      assert AreDecimalDigits(whole, fraction) && s == DecimalText(negative, whole, fraction);
    }
  }

  lemma PartsOfUnsigned(s: string) returns (whole: string, fraction: string)
    requires ParseUnsigned(s).Some?
    ensures AreDecimalDigits(whole, fraction) && s == whole + if fraction == "" then "" else "." + fraction
  {
    hide DigitsValue;
    var n := DigitRun(s);
    whole, fraction := s[..n], if n == |s| then "" else s[n + 1..];
    assert n < |s| ==> s == s[..n] + [s[n]] + s[n + 1..];
    assert n == |s| ==> s == whole;
  }

  /** Printing an amount with decimals that suffice, and parsing it, gives it back. */
  lemma FormatIsRead(minor: int, decimals: nat)
    requires Suffice(decimals, minor)
    ensures ParseDecimal(FormatMinor(minor, decimals)) == Some(minor as real / 100.0)
  {
    hide ParseDecimal, DecimalText;
    var magnitude := Magnitude(minor);
    DigitsAreRead(magnitude / 100);
    CentsAreRead(magnitude % 100, decimals);
    DecimalTextIsRead(minor < 0, Digits(magnitude / 100), Cents(magnitude % 100, decimals));
  }

  lemma CentsAreRead(cents: nat, decimals: nat)
    requires cents < 100
    requires decimals == 2 || (decimals == 1 && cents % 10 == 0) || (decimals == 0 && cents == 0)
    ensures AllDigits(Cents(cents, decimals)) && |Cents(cents, decimals)| <= 2
    ensures FractionValue(Cents(cents, decimals)) == cents as real / 100.0
  {
    TwoDigitsAreRead(cents);
    if decimals == 1 {
      var s := [DigitChar(cents / 10)];
      assert s[..0] == "" && DigitsValue(s) == cents / 10;
    }
  }

  // --- Decorations -------------------------------------------------------------------------------------

  predicate AllSpaces(s: string) { forall i :: 0 <= i < |s| ==> IsSpace(s[i]) }

  /** "INR", "Rs", "Rs." in any case, or the rupee sign; or no currency at all. */
  predicate IsCurrency(word: string) {
    || word == "" || word == [RUPEE_SIGN]
    || (|word| == 3 && StartsWithInr(word))
    || (|word| == 2 && StartsWithRs(word))
    || (|word| == 3 && StartsWithRs(word) && word[2] == '.')
  }

  lemma CurrencyIff(word: string)
    ensures IsCurrency(word) <==> word in {
        "", "\U{20b9}", "INR", "INr", "InR", "Inr", "iNR", "iNr", "inR", "inr",
        "RS", "Rs", "rS", "rs", "RS.", "Rs.", "rS.", "rs."}
  {
    if |word| == 1 {
      assert word == [word[0]];
    } else if |word| == 2 {
      assert word == [word[0], word[1]];
    } else if |word| == 3 {
      assert word == [word[0], word[1], word[2]];
    }
  }

  /** One of the currency words, a comma or white space begins here. */
  ghost predicate NoiseStarts(s: string) {
    s != "" && (s[0] == ',' || IsSpace(s[0]) || exists word :: word != "" && IsCurrency(word) && word <= s)
  }

  /** What is no such noise is kept, so other words make a text no amount. */
  lemma {:induction false} OnlyNoiseIsRemoved(s: string)
    requires forall i :: 0 <= i < |s| ==> !NoiseStarts(s[i..])
    ensures RemoveNoise(s) == s
  {
    if s != "" {
      var rest := s[1..];
      assert !NoiseStarts(s[0..]) && s[0..] == s;
      assert StartsWithInr(s) ==> s[..3] <= s && IsCurrency(s[..3]);
      assert StartsWithRs(s) ==> s[..2] <= s && IsCurrency(s[..2]);
      assert s[0] == RUPEE_SIGN ==> [RUPEE_SIGN] <= s && IsCurrency([RUPEE_SIGN]);
      forall i | 0 <= i < |rest|
        ensures !NoiseStarts(rest[i..])
      {
        assert rest[i..] == s[i + 1..] && !NoiseStarts(s[i + 1..]);
      }
      OnlyNoiseIsRemoved(rest);
    }
  }

  lemma {:induction false} StripLeftEmptyIff(s: string)
    ensures StripLeft(s) == "" <==> AllSpaces(s)
    ensures StripLeft(s) != "" ==> !IsSpace(StripLeft(s)[0])
  {
    if s != "" && IsSpace(s[0]) {
      StripLeftEmptyIff(s[1..]);
    }
  }

  lemma {:induction false} StripRightKeepsHead(s: string)
    requires s != "" && !IsSpace(s[0])
    ensures StripRight(s) != ""
  {
    if IsSpace(s[|s| - 1]) {
      StripRightKeepsHead(s[..|s| - 1]);
    }
  }

  /** The empty cells, and the texts of white space only, are blank amounts, and nothing else is. */
  lemma BlankAmountIff(cell: Cell)
    ensures ParseAmountMinor(cell) == Ok(None) <==> cell.Blank? || (cell.Text? && AllSpaces(cell.text))
  {
    if cell.Text? {
      StripLeftEmptyIff(cell.text);
      if StripLeft(cell.text) != "" {
        StripRightKeepsHead(StripLeft(cell.text));
      }
    }
  }

  /** What is refused as no number: true and false, infinities, and any text, or other cell's text, that is not
      a decimal once stripped of noise. */
  lemma NotANumberIff(cell: Cell)
    ensures ParseAmountMinor(cell) == Err(NotANumber) <==>
      cell.Flag? || cell.NotFinite?
      || (cell.Text? && !AllSpaces(cell.text) && !IsDecimalText(RemoveNoise(DropTrailingDash(Strip(cell.text)))))
      || (cell.Other? && !IsDecimalText(RemoveNoise(DropTrailingDash(Strip(cell.repr)))))
  {
    BlankAmountIff(cell);
    if cell.Text? {
      ReadsDecimalTextIff(RemoveNoise(DropTrailingDash(Strip(cell.text))));
    } else if cell.Other? {
      ReadsDecimalTextIff(RemoveNoise(DropTrailingDash(Strip(cell.repr))));
    }
  }

  /** The text without its commas and spaces. */
  function Squeeze(s: string): string {
    if s == "" then "" else (if IsSeparator(s[0]) then "" else [s[0]]) + Squeeze(s[1..])
  }

  predicate IsPlainChar(c: char) { IsDigit(c) || c == '-' || c == '.' || IsSeparator(c) }

  predicate IsPlain(s: string) { forall i :: 0 <= i < |s| ==> IsPlainChar(s[i]) }

  predicate TightEnds(s: string) { s != "" && !IsSpace(s[0]) && !IsSpace(s[|s| - 1]) }

  lemma {:induction false} StripLeftPadding(pad: string, s: string)
    requires AllSpaces(pad) && s != "" && !IsSpace(s[0])
    ensures StripLeft(pad + s) == s
  {
    if pad == "" {
      assert pad + s == s;
    } else {
      assert (pad + s)[1..] == pad[1..] + s;
      StripLeftPadding(pad[1..], s);
    }
  }

  lemma {:induction false} StripRightPadding(s: string, pad: string)
    requires AllSpaces(pad) && s != "" && !IsSpace(s[|s| - 1])
    ensures StripRight(s + pad) == s
  {
    if pad == "" {
      assert s + pad == s;
    } else {
      assert (s + pad)[..|s + pad| - 1] == s + pad[..|pad| - 1];
      StripRightPadding(s, pad[..|pad| - 1]);
    }
  }

  lemma StripPadding(lead: string, s: string, trail: string)
    requires AllSpaces(lead) && AllSpaces(trail) && TightEnds(s)
    ensures Strip(lead + s + trail) == s
  {
    assert lead + s + trail == lead + (s + trail);
    StripLeftPadding(lead, s + trail);
    StripRightPadding(s, trail);
  }

  lemma {:induction false} PlainNoise(s: string)
    requires IsPlain(s)
    ensures RemoveNoise(s) == Squeeze(s)
  {
    if s != "" {
      assert IsPlainChar(s[0]);
      PlainNoise(s[1..]);
    }
  }

  /** A currency word in front goes, as long as no decimal point follows it. */
  lemma CurrencyIsNoise(word: string, rest: string)
    requires IsCurrency(word) && IsPlain(rest) && (rest == "" || rest[0] != '.')
    ensures RemoveNoise(word + rest) == RemoveNoise(rest)
  {
    var s := word + rest;
    if word == "" {
      assert s == rest;
    } else if |word| == 3 && StartsWithInr(word) {
      assert s[3..] == rest;
    } else if |word| == 2 {
      assert s[2..] == rest;
      assert |s| > 2 ==> s[2] == rest[0];
    } else if |word| == 3 {
      assert s[3..] == rest;
    } else {
      assert s[1..] == rest;
    }
  }

  lemma {:induction false} SqueezeConcat(a: string, b: string)
    ensures Squeeze(a + b) == Squeeze(a) + Squeeze(b)
    decreases |a|
  {
    if a == "" {
      assert a + b == b;
    } else {
      assert (a + b)[1..] == a[1..] + b;
      SqueezeConcat(a[1..], b);
    }
  }

  lemma {:induction false} SqueezeSpaces(s: string)
    requires AllSpaces(s)
    ensures Squeeze(s) == ""
  {
    if s != "" {
      SqueezeSpaces(s[1..]);
    }
  }

  lemma FormatIsTight(minor: int, decimals: nat)
    ensures var s := FormatMinor(minor, decimals); s[0] != '.' && IsDigit(s[|s| - 1])
  {
  }

  lemma SqueezeHead(s: string)
    requires s != "" && !IsSeparator(s[0])
    ensures Squeeze(s) != "" && Squeeze(s)[0] == s[0]
  {
  }

  /** The parts of a printed amount. A minus may stand in front of the currency or in the body. */
  datatype Printed = Printed(
    lead: string, sign: string, signGap: string, currency: string, gap: string, body: string,
    dash: bool, dashGap: string, trail: string) {

    function Kept(): string { sign + signGap + currency + gap + body + (if dash then dashGap else "") }

    function Core(): string { Kept() + (if dash then "/-" else "") }

    function Whole(): string { lead + Core() + trail }

    /** The body is the amount with decimals that suffice, without the minus if that stands in front, and with
        commas and spaces put in anywhere between its first and last characters. */
    predicate Prints(minor: int, decimals: nat) {
      && AllSpaces(lead) && AllSpaces(signGap) && AllSpaces(gap) && AllSpaces(dashGap) && AllSpaces(trail)
      && (sign == "" || sign == "-") && (sign == "" ==> signGap == "")
      && IsCurrency(currency) && (sign == "" && currency == "" ==> gap == "")
      && IsPlain(body) && body != "" && !IsSeparator(body[0]) && !IsSeparator(body[|body| - 1])
      && Suffice(decimals, minor) && sign + Squeeze(body) == FormatMinor(minor, decimals)
    }
  }

  lemma {:induction false} SqueezeLast(s: string)
    requires s != "" && !IsSeparator(s[|s| - 1])
    ensures Squeeze(s) != "" && Squeeze(s)[|Squeeze(s)| - 1] == s[|s| - 1]
  {
    if |s| > 1 {
      SqueezeLast(s[1..]);
    }
  }

  /** The body starts with a digit or a minus and ends with a digit. */
  lemma BodyEnds(p: Printed, minor: int, decimals: nat)
    requires p.Prints(minor, decimals)
    ensures (IsDigit(p.body[0]) || p.body[0] == '-') && IsDigit(p.body[|p.body| - 1])
  {
    hide FormatMinor, Squeeze;
    SqueezeHead(p.body);
    SqueezeLast(p.body);
    FormatStarts(minor, decimals);
    FormatIsTight(minor, decimals);
    var s := FormatMinor(minor, decimals);
    assert s[|s| - 1] == Squeeze(p.body)[|Squeeze(p.body)| - 1];
    if p.sign == "-" {
      assert s[0] == '-' && s[1] == Squeeze(p.body)[0];
    } else {
      assert s[0] == Squeeze(p.body)[0];
    }
  }

  lemma FormatStarts(minor: int, decimals: nat)
    ensures var s := FormatMinor(minor, decimals);
      s != "" && if s[0] == '-' then |s| > 1 && IsDigit(s[1]) else IsDigit(s[0])
  {
    var whole := Digits(Magnitude(minor) / 100);
    assert IsDigit(whole[0]);
    var s := FormatMinor(minor, decimals);
    assert s[if minor < 0 then 1 else 0] == whole[0];
  }

  lemma CoreIsTight(p: Printed, minor: int, decimals: nat)
    requires p.Prints(minor, decimals)
    ensures TightEnds(p.Core())
  {
    hide FormatMinor, Squeeze;
    BodyEnds(p, minor, decimals);
    var s := p.Core();
    var head := if p.sign != "" then p.sign[0] else if p.currency != "" then p.currency[0] else p.body[0];
    assert s[0] == head;
    assert s[|s| - 1] == if p.dash then '-' else p.body[|p.body| - 1];
  }

  lemma DashIsDropped(p: Printed, minor: int, decimals: nat)
    requires p.Prints(minor, decimals)
    ensures DropTrailingDash(p.Core()) == p.Kept()
  {
    hide FormatMinor, Squeeze;
    var s := p.Core();
    if p.dash {
      assert s == p.Kept() + "/-";
      assert s[|s| - 2..] == "/-" && s[..|s| - 2] == p.Kept();
    } else {
      BodyEnds(p, minor, decimals);
      assert s[|s| - 1] == p.body[|p.body| - 1];
      assert |s| >= 2 ==> s[|s| - 2..][1] == s[|s| - 1];
    }
  }

  /** Every amount up to the cap, printed with two decimals or with fewer that suffice, and any commas, spaces,
      currency word after or before the minus, and trailing "/-", parses back to itself. */
  lemma PrintedAmountParsesBack(p: Printed, minor: int, decimals: nat)
    requires -MAX_AMOUNT_MINOR <= minor <= MAX_AMOUNT_MINOR && p.Prints(minor, decimals)
    ensures ParseAmountMinor(Text(p.Whole())) == Ok(Some(minor))
  {
    hide RemoveNoise, Squeeze, FormatMinor, ParseDecimal, StripLeft, StripRight, DropTrailingDash;
    CoreIsTight(p, minor, decimals);
    StripPadding(p.lead, p.Core(), p.trail);
    DashIsDropped(p, minor, decimals);
    NoiseIsRemoved(p, minor, decimals);
    FormatIsRead(minor, decimals);
    MinorIsKept(minor);
  }

  /** Commas and spaces between digits go. */
  lemma GroupingIsNoise(a: string, b: string)
    requires AllDigits(a) && AllDigits(b)
    ensures RemoveNoise(a + "," + b) == a + b && RemoveNoise(a + " " + b) == a + b
  {
    NothingToSqueeze(a);
    NothingToSqueeze(b);
    GroupedIsSqueezed(a, ',', b);
    GroupedIsSqueezed(a, ' ', b);
  }

  lemma GroupedIsSqueezed(a: string, c: char, b: string)
    requires IsPlain(a) && IsPlain(b) && IsSeparator(c)
    ensures RemoveNoise(a + [c] + b) == Squeeze(a) + Squeeze(b)
  {
    PlainNoise(a + [c] + b);
    SqueezeConcat(a + [c], b);
    SqueezeConcat(a, [c]);
    assert [c][1..] == "" && Squeeze([c]) == "";
    assert Squeeze(a) + "" == Squeeze(a);
  }

  /** Whole rupees without a point, and rupees with one decimal, among them. */
  lemma ShortAmountsParse(rupees: nat, tenths: nat)
    requires 100 * rupees + 10 * tenths <= MAX_AMOUNT_MINOR && tenths < 10
    ensures ParseAmountMinor(Text(Digits(rupees))) == Ok(Some(100 * rupees))
    ensures ParseAmountMinor(Text(Digits(rupees) + "." + [DigitChar(tenths)])) == Ok(Some(100 * rupees + 10 * tenths))
  {
    hide ParseAmountMinor, Digits, FormatMinor;
    PlainAmountParses(100 * rupees, 0);
    PlainAmountParses(100 * rupees + 10 * tenths, 1);
    ShortFormats(rupees, tenths);
  }

  lemma ShortFormats(rupees: nat, tenths: nat)
    requires tenths < 10
    ensures FormatMinor(100 * rupees, 0) == Digits(rupees)
    ensures FormatMinor(100 * rupees + 10 * tenths, 1) == Digits(rupees) + "." + [DigitChar(tenths)]
  {
    hide Digits, FormatMinor;
    Hundreds(rupees, 0);
    Hundreds(rupees, 10 * tenths);
    FormatOfParts(rupees, 0, 0);
    FormatOfParts(rupees, 10 * tenths, 1);
    assert 10 * tenths / 10 == tenths;
  }

  lemma Hundreds(n: nat, rest: nat)
    requires rest < 100
    ensures (100 * n + rest) / 100 == n && (100 * n + rest) % 100 == rest
  {
  }

  lemma FormatOfParts(rupees: nat, cents: nat, decimals: nat)
    requires cents < 100 && (100 * rupees + cents) / 100 == rupees && (100 * rupees + cents) % 100 == cents
    ensures FormatMinor(100 * rupees + cents, decimals)
      == Digits(rupees) + (if Cents(cents, decimals) == "" then "" else "." + Cents(cents, decimals))
  {
    hide Digits, Cents;
  }

  lemma PlainAmountParses(minor: nat, decimals: nat)
    requires minor <= MAX_AMOUNT_MINOR && Suffice(decimals, minor)
    ensures ParseAmountMinor(Text(FormatMinor(minor, decimals))) == Ok(Some(minor))
  {
    hide ParseAmountMinor, FormatMinor, Squeeze, IsPlain, IsSeparator, Digits;
    var s := FormatMinor(minor, decimals);
    var p := Printed("", "", "", "", "", s, false, "", "");
    FormatIsPlain(minor, decimals);
    assert p.Whole() == s && "" + Squeeze(s) == Squeeze(s);
    PrintedAmountParsesBack(p, minor, decimals);
  }

  lemma FormatIsPlain(minor: int, decimals: nat)
    ensures var s := FormatMinor(minor, decimals);
      IsPlain(s) && s != "" && !IsSeparator(s[0]) && !IsSeparator(s[|s| - 1]) && Squeeze(s) == s
  {
    hide FormatMinor;
    FormatStarts(minor, decimals);
    FormatIsTight(minor, decimals);
    FormatChars(minor, decimals);
    NothingToSqueeze(FormatMinor(minor, decimals));
  }

  lemma FormatChars(minor: int, decimals: nat)
    ensures forall c :: c in FormatMinor(minor, decimals) ==> IsDigit(c) || c == '-' || c == '.'
  {
    var whole, cents := Digits(Magnitude(minor) / 100), Cents(Magnitude(minor) % 100, decimals);
    assert forall c :: c in whole ==> IsDigit(c);
    assert forall c :: c in cents ==> IsDigit(c);
    assert forall c :: c in whole + (if cents == "" then "" else "." + cents) ==> IsDigit(c) || c == '.';
  }

  lemma AmountCharIsKept(c: char)
    requires IsDigit(c) || c == '-' || c == '.'
    ensures !IsSeparator(c)
  {
  }

  lemma {:induction false} NothingToSqueeze(s: string)
    requires forall c :: c in s ==> IsDigit(c) || c == '-' || c == '.'
    ensures IsPlain(s) && Squeeze(s) == s
  {
    hide IsSeparator;
    if s != "" {
      AmountCharIsKept(s[0]);
      assert s[0] in s && forall c :: c in s[1..] ==> c in s;
      NothingToSqueeze(s[1..]);
    }
  }

  lemma NoiseIsRemoved(p: Printed, minor: int, decimals: nat)
    requires p.Prints(minor, decimals)
    ensures RemoveNoise(p.Kept()) == FormatMinor(minor, decimals)
  {
    hide FormatMinor, RemoveNoise, Squeeze, IsPlain, IsCurrency, IsSeparator, IsSpace;
    var tail := if p.dash then p.dashGap else "";
    var rest := p.gap + p.body + tail;
    assert p.Kept() == p.sign + (p.signGap + (p.currency + rest));
    BodyEnds(p, minor, decimals);
    PaddedBody(p.gap, p.body, tail);
    SignIsKept(p.sign, p.signGap + (p.currency + rest));
    SpacesAreNoise(p.signGap, p.currency + rest);
    CurrencyIsNoise(p.currency, rest);
    PlainNoise(rest);
  }

  lemma PaddedBody(gap: string, body: string, tail: string)
    requires AllSpaces(gap) && AllSpaces(tail) && IsPlain(body) && body != "" && body[0] != '.'
    ensures var rest := gap + body + tail;
      rest != "" && rest[0] != '.' && IsPlain(rest) && Squeeze(rest) == Squeeze(body)
  {
    hide Squeeze;
    assert (gap + body + tail)[0] == if gap == "" then body[0] else gap[0];
    SqueezeConcat(gap + body, tail);
    SqueezeConcat(gap, body);
    SqueezeSpaces(gap);
    SqueezeSpaces(tail);
  }

  lemma SignIsKept(sign: string, rest: string)
    requires sign == "" || sign == "-"
    ensures RemoveNoise(sign + rest) == sign + RemoveNoise(rest)
  {
    if sign == "" {
      assert sign + rest == rest;
    } else {
      assert (sign + rest)[1..] == rest;
    }
  }

  lemma {:induction false} SpacesAreNoise(spaces: string, rest: string)
    requires AllSpaces(spaces)
    ensures RemoveNoise(spaces + rest) == RemoveNoise(rest)
  {
    if spaces == "" {
      assert spaces + rest == rest;
    } else {
      assert (spaces + rest)[1..] == spaces[1..] + rest;
      SpacesAreNoise(spaces[1..], rest);
    }
  }

  lemma MinorIsKept(minor: int)
    requires -MAX_AMOUNT_MINOR <= minor <= MAX_AMOUNT_MINOR
    ensures ToMinor(minor as real / 100.0) == Ok(Some(minor))
  {
  }
}
