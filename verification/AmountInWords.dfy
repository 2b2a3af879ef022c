/** An amount of rupees in words, in Indian grouping, and a reader that recovers the amount. */
module AmountInWords {
  import opened Wrappers

  const ONES: seq<string> := [
    "Zero", "One", "Two", "Three", "Four", "Five", "Six", "Seven", "Eight", "Nine", "Ten",
    "Eleven", "Twelve", "Thirteen", "Fourteen", "Fifteen", "Sixteen", "Seventeen", "Eighteen", "Nineteen"
  ]
  const TENS: seq<string> := ["", "", "Twenty", "Thirty", "Forty", "Fifty", "Sixty", "Seventy", "Eighty", "Ninety"]

  const CRORE := 10_000_000
  const LAKH := 100_000
  const LIMIT := 20_000_000_000

  // --- Writing ----------------------------------------------------------------------------------

  /** A list item by Python's rules: a negative index counts from the end, one out of range fails. */
  function Item(items: seq<string>, i: int): Option<string> {
    if 0 <= i < |items| then Some(items[i])
    else if -|items| <= i < 0 then Some(items[|items| + i])
    else None
  }

  function TwoDigits(n: int): string
    requires 0 <= n < 100
  {
    if n < 20 then ONES[n]
    else TENS[n / 10] + if n % 10 != 0 then "-" + ONES[n % 10] else ""
  }

  function Join(parts: seq<string>): string {
    if parts == [] then ""
    else if |parts| == 1 then parts[0]
    else parts[0] + " " + Join(parts[1..])
  }

  function ThreeDigits(n: int): Option<string> {
    var hundreds, rest := n / 100, n % 100;
    var tail := if rest != 0 then [TwoDigits(rest)] else [];
    if hundreds == 0 then Some(Join(tail))
    else match Item(ONES, hundreds)
      case Some(word) => Some(Join([word + " Hundred"] + tail))
      case None => None
  }

  function UpperChar(c: char): char {
    if 'a' <= c <= 'z' then (c as int - 32) as char else c
  }

  function Upper(s: string): string {
    seq(|s|, i requires 0 <= i < |s| => UpperChar(s[i]))
  }

  function Prefix(currency: string): string {
    match Upper(currency)
    case "INR" => "Indian Rupee"
    case "USD" => "US Dollar"
    case "EUR" => "Euro"
    case "GBP" => "Pound"
    case other => other
  }

  /** The chunks after the crores: lakhs, thousands, and the rest under a thousand. */
  function SmallChunks(rest: int): seq<string>
    requires 0 <= rest < CRORE
  {
    var lakh, thousand, hundreds := rest / LAKH, rest % LAKH / 1_000, rest % LAKH % 1_000;
    (if lakh != 0 then [TwoDigits(lakh) + " Lakh"] else [])
    + (if thousand != 0 then [TwoDigits(thousand) + " Thousand"] else [])
    + (if hundreds != 0 then [UnderThousand(hundreds)] else [])
  }

  function UnderThousand(n: int): string
    requires 0 <= n < 1_000
  {
    assert ThreeDigits(n).Some?;
    ThreeDigits(n).value
  }

  /** None stands for the index error the source raises. */
  function Words(rupees: int): Option<string> {
    if rupees == 0 then Some("Zero") else
    var crore, rest := rupees / CRORE, rupees % CRORE;
    if crore == 0 then Some(Join(SmallChunks(rest)))
    else match ThreeDigits(crore)
      case Some(text) => Some(Join([text + " Crore"] + SmallChunks(rest)))
      case None => None
  }

  function AmountInWords(rupees: int, currency: string): Option<string> {
    match Words(rupees)
    case Some(words) => Some(Prefix(currency) + " " + words + " Only")
    case None => None
  }

  /** The word, in capitals or small letters. */
  predicate Spells(s: string, capitals: string) {
    |s| == |capitals| && forall i :: 0 <= i < |s| ==> s[i] == capitals[i] || s[i] as int == capitals[i] as int + 32
  }

  /** The currencies that have a name, and the code in capitals for any other. */
  lemma PrefixIs(currency: string)
    ensures Spells(currency, "INR") ==> Prefix(currency) == "Indian Rupee"
    ensures Spells(currency, "USD") ==> Prefix(currency) == "US Dollar"
    ensures Spells(currency, "EUR") ==> Prefix(currency) == "Euro"
    ensures Spells(currency, "GBP") ==> Prefix(currency) == "Pound"
    ensures !(exists code :: code in {"INR", "USD", "EUR", "GBP"} && Spells(currency, code)) ==>
      && |Prefix(currency)| == |currency|
      && forall i :: 0 <= i < |currency| ==>
           Prefix(currency)[i] == if 'a' <= currency[i] <= 'z' then currency[i] - ' ' else currency[i]
  {
    UpperSpells(currency, "INR");
    UpperSpells(currency, "USD");
    UpperSpells(currency, "EUR");
    UpperSpells(currency, "GBP");
  }

  lemma UpperSpells(s: string, capitals: string)
    requires forall i :: 0 <= i < |capitals| ==> 'A' <= capitals[i] <= 'Z'
    ensures Upper(s) == capitals <==> Spells(s, capitals)
  {
    if Upper(s) == capitals {
      forall i | 0 <= i < |s|
        ensures s[i] == capitals[i] || s[i] as int == capitals[i] as int + 32
      {
        assert Upper(s)[i] == UpperChar(s[i]);
      }
    }
  }

  // --- Reading ----------------------------------------------------------------------------------

  /** The first position of a character, or the length if it does not occur. */
  function FirstAt(c: char, s: string): (i: nat)
    ensures i <= |s| && c !in s[..i] && (i < |s| ==> s[i] == c)
  {
    if s == "" || s[0] == c then 0 else 1 + FirstAt(c, s[1..])
  }

  function Split(s: string): seq<string>
    decreases |s|
  {
    var i := FirstAt(' ', s);
    if i == |s| then [s] else [s[..i]] + Split(s[i + 1..])
  }

  function OnesValue(w: string): int {
    match w
    case "One" => 1 case "Two" => 2 case "Three" => 3 case "Four" => 4 case "Five" => 5
    case "Six" => 6 case "Seven" => 7 case "Eight" => 8 case "Nine" => 9 case "Ten" => 10
    case "Eleven" => 11 case "Twelve" => 12 case "Thirteen" => 13 case "Fourteen" => 14 case "Fifteen" => 15
    case "Sixteen" => 16 case "Seventeen" => 17 case "Eighteen" => 18 case "Nineteen" => 19
    case _ => 0
  }

  function TensValue(w: string): int {
    match w
    case "Twenty" => 20 case "Thirty" => 30 case "Forty" => 40 case "Fifty" => 50
    case "Sixty" => 60 case "Seventy" => 70 case "Eighty" => 80 case "Ninety" => 90
    case _ => 0
  }

  /** The value of a number word, hyphenated or not. */
  function WordValue(w: string): int {
    var i := FirstAt('-', w);
    if i == |w| then OnesValue(w) + TensValue(w)
    else TensValue(w[..i]) + OnesValue(w[i + 1..])
  }

  /** What has been heard so far: the closed groups, and the one still open. */
  datatype Tally = Tally(closed: int, open: int)

  function Hear(t: Tally, word: string): Tally {
    match word
    case "Hundred" => Tally(t.closed, t.open * 100)
    case "Thousand" => Tally(t.closed + t.open * 1_000, 0)
    case "Lakh" => Tally(t.closed + t.open * LAKH, 0)
    case "Crore" => Tally(t.closed + t.open * CRORE, 0)
    case _ => Tally(t.closed, t.open + WordValue(word))
  }

  function HearAll(t: Tally, words: seq<string>): Tally
    decreases words
  {
    if words == [] then t else HearAll(Hear(t, words[0]), words[1..])
  }

  function HearText(t: Tally, text: string): Tally { HearAll(t, Split(text)) }

  /** Reads the amount back: drop the currency and the closing word, then total the groups. */
  function Read(text: string, currency: string): int
    requires |text| >= |Prefix(currency)| + 6
  {
    var t := HearText(Tally(0, 0), text[|Prefix(currency)| + 1..|text| - 5]);
    t.closed + t.open
  }

  // --- Splitting and joining --------------------------------------------------------------------

  lemma FirstAtSeparator(c: char, a: string, b: string)
    requires c !in a
    ensures FirstAt(c, a + [c] + b) == |a| && FirstAt(c, a) == |a|
  {
    var s := a + [c] + b;
    assert s[|a|] == c;
    assert forall k :: 0 <= k < |a| ==> s[k] == a[k] && a[k] != c;
  }

  lemma SplitWord(word: string, rest: string)
    requires ' ' !in word
    ensures Split(word + " " + rest) == [word] + Split(rest)
    ensures Split(word) == [word]
  {
    var s := word + " " + rest;
    FirstAtSeparator(' ', word, rest);
    assert s[..|word|] == word && s[|word| + 1..] == rest;
  }

  lemma {:induction false} SplitConcat(a: string, b: string)
    ensures Split(a + " " + b) == Split(a) + Split(b)
    decreases |a|
  {
    hide Split, FirstAt;
    var i := FirstAt(' ', a);
    if i == |a| {
      assert a[..i] == a;
      SplitWord(a, b);
    } else {
      var word, rest := a[..i], a[i + 1..];
      assert a == word + " " + rest;
      assert a + " " + b == word + " " + (rest + " " + b);
      SplitWord(word, rest);
      SplitWord(word, rest + " " + b);
      SplitConcat(rest, b);
      assert [word] + Split(rest) + Split(b) == [word] + (Split(rest) + Split(b));
    }
  }

  lemma {:induction false} HearAllConcat(t: Tally, xs: seq<string>, ys: seq<string>)
    ensures HearAll(t, xs + ys) == HearAll(HearAll(t, xs), ys)
    decreases |xs|
  {
    if xs == [] {
      assert xs + ys == ys;
    } else {
      assert (xs + ys)[1..] == xs[1..] + ys;
      HearAllConcat(Hear(t, xs[0]), xs[1..], ys);
    }
  }

  lemma HearTextConcat(t: Tally, a: string, b: string)
    ensures HearText(t, a + " " + b) == HearText(HearText(t, a), b)
  {
    SplitConcat(a, b);
    HearAllConcat(t, Split(a), Split(b));
  }

  lemma HearWord(t: Tally, word: string)
    requires ' ' !in word
    ensures HearText(t, word) == Hear(t, word)
  {
    assert FirstAt(' ', word) == |word|;
    assert HearAll(t, [word]) == HearAll(Hear(t, word), []);
  }

  // --- Number words -----------------------------------------------------------------------------

  lemma OnesAreRead(n: int)
    requires 0 <= n < 20
    ensures OnesValue(ONES[n]) == n && TensValue(ONES[n]) == 0
  {
  }

  lemma TensAreRead(k: int)
    requires 2 <= k < 10
    ensures TensValue(TENS[k]) == 10 * k && OnesValue(TENS[k]) == 0
  {
  }

  lemma OnesArePlain(n: int)
    requires 0 <= n < 20
    ensures ' ' !in ONES[n] && '-' !in ONES[n]
    ensures ONES[n] !in {"Hundred", "Thousand", "Lakh", "Crore"}
  {
  }

  lemma TensArePlain(k: int)
    requires 2 <= k < 10
    ensures ' ' !in TENS[k] && '-' !in TENS[k]
    ensures TENS[k] !in {"Hundred", "Thousand", "Lakh", "Crore"}
  {
  }

  lemma TwoDigitsAreRead(n: int)
    requires 0 <= n < 100
    ensures WordValue(TwoDigits(n)) == n
    ensures ' ' !in TwoDigits(n) && TwoDigits(n) !in {"Hundred", "Thousand", "Lakh", "Crore"}
  {
    hide OnesValue, TensValue, WordValue;
    if n < 20 {
      OnesAreRead(n);
      OnesArePlain(n);
      PlainWordIsRead(ONES[n]);
    } else {
      var k, u := n / 10, n % 10;
      TensAreRead(k);
      TensArePlain(k);
      if u == 0 {
        PlainWordIsRead(TENS[k]);
        assert TwoDigits(n) == TENS[k];
      } else {
        OnesAreRead(u);
        OnesArePlain(u);
        HyphenatedIsRead(TENS[k], ONES[u]);
        assert TwoDigits(n) == TENS[k] + "-" + ONES[u];
      }
    }
  }

  lemma PlainWordIsRead(w: string)
    requires '-' !in w
    ensures WordValue(w) == OnesValue(w) + TensValue(w)
  {
  }

  lemma HyphenatedIsRead(tens: string, ones: string)
    requires '-' !in tens && ' ' !in tens && ' ' !in ones
    ensures WordValue(tens + "-" + ones) == TensValue(tens) + OnesValue(ones)
    ensures ' ' !in tens + "-" + ones && tens + "-" + ones !in {"Hundred", "Thousand", "Lakh", "Crore"}
  {
    hide OnesValue, TensValue, FirstAt;
    var w := tens + "-" + ones;
    FirstAtSeparator('-', tens, ones);
    assert w[..|tens|] == tens && w[|tens| + 1..] == ones;
    assert w[|tens|] == '-';
  }

  lemma HearTwoDigits(t: Tally, n: int)
    requires 0 <= n < 100
    ensures HearText(t, TwoDigits(n)) == Tally(t.closed, t.open + n)
  {
    TwoDigitsAreRead(n);
    HearWord(t, TwoDigits(n));
  }

  lemma HearUnit(t: Tally, unit: string)
    requires unit in {"Hundred", "Thousand", "Lakh", "Crore"}
    ensures HearText(t, unit) == Hear(t, unit)
  {
    HearWord(t, unit);
  }

  lemma HearHundreds(closed: int, hundreds: int)
    requires 0 <= hundreds < 20
    ensures HearText(Tally(closed, 0), ONES[hundreds] + " Hundred") == Tally(closed, hundreds * 100)
  {
    assert ONES[hundreds] == TwoDigits(hundreds);
    hide HearText, TwoDigits;
    HearTwoDigits(Tally(closed, 0), hundreds);
    HearUnit(Tally(closed, hundreds), "Hundred");
    HearTextConcat(Tally(closed, 0), ONES[hundreds], "Hundred");
    assert ONES[hundreds] + " Hundred" == ONES[hundreds] + " " + "Hundred";
  }

  /** The number a chunk names: a negative one takes its hundreds from the end of the list. */
  function Named(n: int): int { if n < 0 then n + 2_000 else n }

  lemma HundredsWord(n: int)
    requires -2_000 <= n < 2_000
    ensures Item(ONES, n / 100) == Some(ONES[Named(n) / 100])
  {
  }

  lemma ThreeDigitsForm(n: int)
    requires -2_000 <= n < 2_000 && n != 0
    ensures var hundreds, rest := Named(n) / 100, n % 100;
      ThreeDigits(n) == Some(
        if 0 < n < 100 then TwoDigits(rest)
        else if rest == 0 then ONES[hundreds] + " Hundred"
        else ONES[hundreds] + " Hundred" + " " + TwoDigits(rest))
  {
    hide TwoDigits, Item;
    var rest := n % 100;
    if n / 100 != 0 {
      var word := ONES[Named(n) / 100];
      HundredsWord(n);
      var head := word + " Hundred";
      var parts := [head] + if rest != 0 then [TwoDigits(rest)] else [];
      assert ThreeDigits(n) == Some(Join(parts));
      if rest == 0 {
        assert parts == [head];
      } else {
        assert parts[1..] == [TwoDigits(rest)];
      }
    }
  }

  /** Read from a closed state, a chunk under two thousand is its own value, or what it names if negative. */
  lemma HearThreeDigits(closed: int, n: int)
    requires -2_000 <= n < 2_000 && n != 0
    ensures ThreeDigits(n).Some? && HearText(Tally(closed, 0), ThreeDigits(n).value) == Tally(closed, Named(n))
  {
    hide HearText, ThreeDigits, TwoDigits;
    var hundreds, rest := Named(n) / 100, n % 100;
    ThreeDigitsForm(n);
    if 0 < n < 100 {
      HearTwoDigits(Tally(closed, 0), rest);
    } else {
      HearHundreds(closed, hundreds);
      if rest != 0 {
        HearTextConcat(Tally(closed, 0), ONES[hundreds] + " Hundred", TwoDigits(rest));
        HearTwoDigits(Tally(closed, hundreds * 100), rest);
      }
    }
  }

  // --- The whole amount -------------------------------------------------------------------------

  function HearChunks(t: Tally, chunks: seq<string>): Tally
    decreases chunks
  {
    if chunks == [] then t else HearChunks(HearText(t, chunks[0]), chunks[1..])
  }

  lemma {:induction false} HearJoined(t: Tally, chunks: seq<string>)
    requires chunks != []
    ensures HearText(t, Join(chunks)) == HearChunks(t, chunks)
    decreases |chunks|
  {
    if |chunks| > 1 {
      HearTextConcat(t, chunks[0], Join(chunks[1..]));
      HearJoined(HearText(t, chunks[0]), chunks[1..]);
    }
  }

  lemma HearGroup(closed: int, text: string, n: int, unit: string)
    requires HearText(Tally(closed, 0), text) == Tally(closed, n)
    requires unit in {"Thousand", "Lakh", "Crore"}
    ensures HearText(Tally(closed, 0), text + " " + unit) == Hear(Tally(closed, n), unit)
  {
    HearTextConcat(Tally(closed, 0), text, unit);
    HearUnit(Tally(closed, n), unit);
  }

  lemma {:induction false} HearChunksConcat(t: Tally, xs: seq<string>, ys: seq<string>)
    ensures HearChunks(t, xs + ys) == HearChunks(HearChunks(t, xs), ys)
    decreases |xs|
  {
    if xs == [] {
      assert xs + ys == ys;
    } else {
      assert (xs + ys)[1..] == xs[1..] + ys;
      HearChunksConcat(HearText(t, xs[0]), xs[1..], ys);
    }
  }

  lemma HearOneChunk(t: Tally, chunk: string)
    ensures HearChunks(t, [chunk]) == HearText(t, chunk) && HearChunks(t, []) == t
  {
  }

  lemma HearSmallChunks(closed: int, rest: int)
    requires 0 <= rest < CRORE
    ensures var t := HearChunks(Tally(closed, 0), SmallChunks(rest)); t.closed + t.open == closed + rest
    ensures rest != 0 ==> SmallChunks(rest) != []
  {
    hide HearText, HearChunks, TwoDigits, UnderThousand;
    var lakh, thousand, hundreds := rest / LAKH, rest % LAKH / 1_000, rest % LAKH % 1_000;
    var lakhs := if lakh != 0 then [TwoDigits(lakh) + " Lakh"] else [];
    var thousands := if thousand != 0 then [TwoDigits(thousand) + " Thousand"] else [];
    var ones := if hundreds != 0 then [UnderThousand(hundreds)] else [];
    var t := Tally(closed, 0);
    var t1 := Tally(closed + lakh * LAKH, 0);
    var t2 := Tally(t1.closed + thousand * 1_000, 0);
    assert TwoDigits(lakh) + " Lakh" == TwoDigits(lakh) + " " + "Lakh";
    assert TwoDigits(thousand) + " Thousand" == TwoDigits(thousand) + " " + "Thousand";
    HearTwoDigitChunk(closed, lakh, "Lakh", lakhs);
    HearTwoDigitChunk(t1.closed, thousand, "Thousand", thousands);
    HearOnesChunk(t2.closed, hundreds, ones);
    HearChunksConcat(t, lakhs, thousands);
    HearChunksConcat(t, lakhs + thousands, ones);
    assert SmallChunks(rest) == lakhs + thousands + ones;
  }

  lemma HearTwoDigitChunk(closed: int, n: int, unit: string, chunks: seq<string>)
    requires 0 <= n < 100 && unit in {"Thousand", "Lakh"}
    requires chunks == if n != 0 then [TwoDigits(n) + " " + unit] else []
    ensures HearChunks(Tally(closed, 0), chunks) == Hear(Tally(closed, n), unit)
  {
    if n != 0 {
      HearTwoDigits(Tally(closed, 0), n);
      HearGroup(closed, TwoDigits(n), n, unit);
      HearOneChunk(Tally(closed, 0), chunks[0]);
    }
  }

  lemma HearOnesChunk(closed: int, n: int, chunks: seq<string>)
    requires 0 <= n < 1_000
    requires chunks == if n != 0 then [UnderThousand(n)] else []
    ensures HearChunks(Tally(closed, 0), chunks) == Tally(closed, n)
  {
    if n != 0 {
      HearThreeDigits(closed, n);
      HearOneChunk(Tally(closed, 0), chunks[0]);
    }
  }

  /** The amount the words name: below zero it is the one two thousand crore higher. */
  function Meant(rupees: int): int { if rupees < 0 then rupees + LIMIT else rupees }

  lemma WordsAreHeard(rupees: int)
    requires -LIMIT <= rupees < LIMIT
    ensures Words(rupees).Some?
    ensures var t := HearText(Tally(0, 0), Words(rupees).value); t.closed + t.open == Meant(rupees)
  {
    hide HearText, HearChunks, ThreeDigits, SmallChunks, Join;
    var crore, rest := rupees / CRORE, rupees % CRORE;
    if rupees == 0 {
      HearTwoDigits(Tally(0, 0), 0);
    } else if crore == 0 {
      HearSmallChunks(0, rest);
      HearJoined(Tally(0, 0), SmallChunks(rest));
    } else {
      HearThreeDigits(0, crore);
      HearCrores(Named(crore), ThreeDigits(crore).value, rest);
    }
  }

  lemma HearCrores(crore: int, text: string, rest: int)
    requires HearText(Tally(0, 0), text) == Tally(0, crore) && 0 <= rest < CRORE
    ensures var t := HearText(Tally(0, 0), Join([text + " Crore"] + SmallChunks(rest)));
      t.closed + t.open == crore * CRORE + rest
  {
    hide HearText, HearChunks, SmallChunks, Join;
    var chunk := text + " Crore";
    assert chunk == text + " " + "Crore";
    HearGroup(0, text, crore, "Crore");
    HearSmallChunks(crore * CRORE, rest);
    HearOneChunk(Tally(0, 0), chunk);
    HearChunksConcat(Tally(0, 0), [chunk], SmallChunks(rest));
    HearJoined(Tally(0, 0), [chunk] + SmallChunks(rest));
  }

  /** Reading the print gives the amount back exactly when it is not negative; a negative amount reads as
      the one 20,000,000,000 higher. */
  lemma ReadInvertsAmountInWords(rupees: int, currency: string)
    requires -LIMIT <= rupees < LIMIT
    ensures AmountInWords(rupees, currency).Some?
    ensures |AmountInWords(rupees, currency).value| >= |Prefix(currency)| + 6
    ensures Read(AmountInWords(rupees, currency).value, currency) == rupees <==> 0 <= rupees
    ensures Read(AmountInWords(rupees, currency).value, currency) == Meant(rupees)
  {
    WordsAreHeard(rupees);
    var words, prefix := Words(rupees).value, Prefix(currency);
    var text := prefix + " " + words + " Only";
    assert text[|prefix| + 1..|text| - 5] == words;
  }

  /** So in one currency two amounts print alike only if a sign apart: never two amounts that are not
      negative, nor two that are. */
  lemma AmountInWordsInjective(a: int, b: int, currency: string)
    requires AmountInWords(a, currency).Some? && AmountInWords(a, currency) == AmountInWords(b, currency)
    ensures Meant(a) == Meant(b)
    ensures (a < 0 <==> b < 0) ==> a == b
  {
    PrintsIffWithinLimit(a, currency);
    PrintsIffWithinLimit(b, currency);
    ReadInvertsAmountInWords(a, currency);
    ReadInvertsAmountInWords(b, currency);
  }

  /** The documented example, letter by letter. */
  lemma ThirtyFiveThousandSixtyFour()
    ensures AmountInWords(35_064, "INR") == Some("Indian Rupee Thirty-Five Thousand Sixty-Four Only")
  {
    hide Words, Prefix;
    ExampleWords();
    RupeesAreNamed();
    ExampleText();
  }

  lemma ExampleText()
    ensures "Indian Rupee" + " " + "Thirty-Five Thousand Sixty-Four" + " Only"
      == "Indian Rupee Thirty-Five Thousand Sixty-Four Only"
  {
    assert "Indian Rupee" + " " == "Indian Rupee ";
    assert "Indian Rupee " + "Thirty-Five Thousand Sixty-Four" == "Indian Rupee Thirty-Five Thousand Sixty-Four";
  }

  lemma RupeesAreNamed()
    ensures Prefix("INR") == "Indian Rupee"
  {
    assert Spells("INR", "INR");
    PrefixIs("INR");
  }

  lemma ExampleWords()
    ensures Words(35_064) == Some("Thirty-Five Thousand Sixty-Four")
  {
    hide SmallChunks, Join, ThreeDigits;
    ExampleChunks();
    JoinTwo("Thirty-Five Thousand", "Sixty-Four");
    assert "Thirty-Five Thousand" + " " + "Sixty-Four" == "Thirty-Five Thousand Sixty-Four";
    assert 35_064 / CRORE == 0 && 35_064 % CRORE == 35_064;
  }

  lemma ExampleChunks()
    ensures SmallChunks(35_064) == ["Thirty-Five Thousand", "Sixty-Four"]
  {
    assert 35_064 / LAKH == 0 && 35_064 % LAKH / 1_000 == 35 && 35_064 % LAKH % 1_000 == 64;
    assert TwoDigits(35) == "Thirty-Five" && TwoDigits(64) == "Sixty-Four";
    assert Join(["Sixty-Four"]) == "Sixty-Four";
    assert UnderThousand(64) == "Sixty-Four";
    assert "Thirty-Five" + " Thousand" == "Thirty-Five Thousand";
  }

  lemma JoinTwo(a: string, b: string)
    ensures Join([a, b]) == a + " " + b
  {
    assert [a, b][1..] == [b];
  }

  /** Printing succeeds on exactly the amounts whose crore group stays under two thousand either way. */
  lemma PrintsIffWithinLimit(rupees: int, currency: string)
    ensures AmountInWords(rupees, currency).Some? <==> -LIMIT <= rupees < LIMIT
  {
  }

  /** Down to minus 1,900 crore the list index wraps without a trace: the very words of the positive amount
      20,000,000,000 higher are printed. */
  lemma NegativeAmountsPrintAsPositive(rupees: int, currency: string)
    requires -1_900 * CRORE <= rupees < 0
    ensures AmountInWords(rupees, currency) == AmountInWords(rupees + LIMIT, currency)
  {
    var crore, shifted := rupees / CRORE, (rupees + LIMIT) / CRORE;
    assert shifted == crore + 2_000 && (rupees + LIMIT) % CRORE == rupees % CRORE;
    assert shifted / 100 == crore / 100 + 20 && shifted % 100 == crore % 100;
    assert Item(ONES, crore / 100) == Item(ONES, shifted / 100);
  }
}
