/** The laws that WorkbookScrub asks of the JSON library can be met by JSON: a codec that writes the compact
    texts of RFC 8259, and reads back exactly what it writes. */
module JsonCodecExists {
  import opened Wrappers
  import opened WorkbookScrub

  // --- Numbers (section 6) ------------------------------------------------------------------------

  predicate IsDigit(c: char) { '0' <= c <= '9' }

  predicate AllDigits(s: string) { forall i :: 0 <= i < |s| ==> IsDigit(s[i]) }

  function DigitRun(s: string): (n: nat)
    ensures n <= |s| && AllDigits(s[..n])
  {
    if s == "" || !IsDigit(s[0]) then 0 else 1 + DigitRun(s[1..])
  }

  predicate IsExponent(s: string) {
    && |s| > 1 && (s[0] == 'e' || s[0] == 'E')
    && var digits := if s[1] == '+' || s[1] == '-' then s[2..] else s[1..];
       digits != "" && AllDigits(digits)
  }

  /** A fraction and an exponent, either of which may be missing. */
  predicate IsNumberTail(s: string) {
    if s != "" && s[0] == '.' then
      var n := DigitRun(s[1..]);
      n > 0 && (s[1 + n..] == "" || IsExponent(s[1 + n..]))
    else s == "" || IsExponent(s)
  }

  predicate IsNumber(s: string) {
    var digits := if s != "" && s[0] == '-' then s[1..] else s;
    var n := DigitRun(digits);
    n > 0 && (digits[0] == '0' ==> n == 1) && IsNumberTail(digits[n..])
  }

  predicate IsNumberChar(c: char) { IsDigit(c) || c == '+' || c == '-' || c == '.' || c == 'e' || c == 'E' }

  predicate AllNumberChars(s: string) { forall i :: 0 <= i < |s| ==> IsNumberChar(s[i]) }

  lemma ExponentChars(s: string)
    requires IsExponent(s)
    ensures AllNumberChars(s)
  {
    var k := if s[1] == '+' || s[1] == '-' then 2 else 1;
    assert s == s[..k] + s[k..];
  }

  lemma NumberTailChars(s: string)
    requires IsNumberTail(s)
    ensures AllNumberChars(s)
  {
    if s != "" && s[0] == '.' {
      var n := DigitRun(s[1..]);
      var rest := s[1 + n..];
      if rest != "" {
        ExponentChars(rest);
      }
      assert s == ['.'] + s[1..][..n] + rest;
    } else if s != "" {
      ExponentChars(s);
    }
  }

  lemma NumberChars(s: string)
    requires IsNumber(s)
    ensures AllNumberChars(s) && s != "" && (s[0] == '-' || IsDigit(s[0]))
  {
    var digits := if s[0] == '-' then s[1..] else s;
    var n := DigitRun(digits);
    NumberTailChars(digits[n..]);
    assert digits == digits[..n] + digits[n..];
    assert s == s[..|s| - |digits|] + digits;
  }

  // --- Writing ------------------------------------------------------------------------------------

  function HexDigit(n: int): char
    requires 0 <= n < 16
  {
    if n < 10 then ('0' as int + n) as char else ('a' as int + n - 10) as char
  }

  /** The quotation mark, the reverse solidus and the control characters are escaped (section 7). */
  function Escape(c: char): string {
    if c == '"' || c == '\\' then ['\\', c]
    else if c < ' ' then ['\\', 'u', '0', '0', HexDigit(c as int / 16), HexDigit(c as int % 16)]
    else [c]
  }

  function WriteChars(s: string): string {
    if s == "" then "\"" else Escape(s[0]) + WriteChars(s[1..])
  }

  function WriteText(s: string): string { "\"" + WriteChars(s) }

  function Write(j: Json): string {
    match j
    case Null => "null"
    case Bool(value) => if value then "true" else "false"
    case Number(literal) => literal
    case Str(text) => WriteText(text)
    case Arr(items) => "[" + WriteItems(items, "")
    case Obj(entries) => "{" + WriteEntries(entries, "")
  }

  /** The rest of an array: its items, each after a comma but for the first, and the closing bracket. */
  function WriteItems(items: seq<Json>, comma: string): string {
    if items == [] then "]" else comma + Write(items[0]) + WriteItems(items[1..], ",")
  }

  function WriteEntries(entries: seq<(string, Json)>, comma: string): string {
    if entries == [] then "}" else
    var (key, value) := entries[0];
    assert value < entries[0];
    comma + WriteText(key) + ":" + Write(value) + WriteEntries(entries[1..], ",")
  }

  // --- What is written has one reading ------------------------------------------------------------

  lemma EscapeIsPrefixFree(a: char, b: char, x: string, y: string)
    requires Escape(a) + x == Escape(b) + y
    ensures a == b && x == y
  {
    var s, t := Escape(a) + x, Escape(b) + y;
    assert s[0] == Escape(a)[0] && t[0] == Escape(b)[0];
    if s[0] == '\\' {
      assert s[1] == Escape(a)[1] && t[1] == Escape(b)[1];
      if s[1] == 'u' {
        assert s[4] == Escape(a)[4] && t[4] == Escape(b)[4];
        assert s[5] == Escape(a)[5] && t[5] == Escape(b)[5];
      }
    }
    assert Escape(a) == Escape(b);
    assert s[|Escape(a)|..] == x && t[|Escape(b)|..] == y;
  }

  lemma {:induction false} CharsArePrefixFree(a: string, b: string, x: string, y: string)
    requires WriteChars(a) + x == WriteChars(b) + y
    ensures a == b && x == y
  {
    var s, t := WriteChars(a) + x, WriteChars(b) + y;
    assert a != "" ==> s[0] == Escape(a[0])[0] != '"';
    assert b != "" ==> t[0] == Escape(b[0])[0] != '"';
    if a == "" {
      assert s[1..] == x && t[1..] == y;
    } else {
      assert s == Escape(a[0]) + (WriteChars(a[1..]) + x) && t == Escape(b[0]) + (WriteChars(b[1..]) + y);
      EscapeIsPrefixFree(a[0], b[0], WriteChars(a[1..]) + x, WriteChars(b[1..]) + y);
      CharsArePrefixFree(a[1..], b[1..], x, y);
    }
  }

  lemma TextIsPrefixFree(a: string, b: string, x: string, y: string)
    requires WriteText(a) + x == WriteText(b) + y
    ensures a == b && x == y
  {
    assert (WriteText(a) + x)[1..] == WriteChars(a) + x && (WriteText(b) + y)[1..] == WriteChars(b) + y;
    CharsArePrefixFree(a, b, x, y);
  }

  /** What may follow a value: nothing, a comma or a closing bracket. */
  predicate EndsValue(rest: string) { rest == "" || rest[0] == ',' || rest[0] == ']' || rest[0] == '}' }

  lemma NotLonger(a: string, b: string, x: string, y: string)
    requires AllNumberChars(b) && EndsValue(x) && a + x == b + y
    ensures |b| <= |a|
  {
    var s := a + x;
    assert forall i :: 0 <= i < |b| ==> s[i] == b[i];
    assert x != "" ==> s[|a|] == x[0];
  }

  lemma NumberIsDelimited(a: string, b: string, x: string, y: string)
    requires AllNumberChars(a) && AllNumberChars(b) && EndsValue(x) && EndsValue(y)
    requires a + x == b + y
    ensures a == b && x == y
  {
    var s, t := a + x, b + y;
    NotLonger(a, b, x, y);
    NotLonger(b, a, y, x);
    assert s[..|a|] == a && t[..|b|] == b && s[|a|..] == x && t[|b|..] == y;
  }

  predicate Readable(j: Json) { WellFormed(s => IsNumber(s), j) }

  datatype Kind = NullKind | TrueKind | FalseKind | NumberKind | StrKind | ArrKind | ObjKind | NoKind

  function KindOf(j: Json): Kind {
    match j
    case Null => NullKind
    case Bool(value) => if value then TrueKind else FalseKind
    case Number(_) => NumberKind
    case Str(_) => StrKind
    case Arr(_) => ArrKind
    case Obj(_) => ObjKind
  }

  /** The first character tells the kind of value. */
  function KindAt(c: char): Kind {
    if c == 'n' then NullKind else if c == 't' then TrueKind else if c == 'f' then FalseKind
    else if c == '-' || IsDigit(c) then NumberKind
    else if c == '"' then StrKind else if c == '[' then ArrKind else if c == '{' then ObjKind else NoKind
  }

  lemma FirstCharTellsKind(j: Json, x: string)
    requires Readable(j)
    ensures Write(j) != "" && (Write(j) + x)[0] == Write(j)[0] && KindAt((Write(j) + x)[0]) == KindOf(j)
  {
    if j.Number? {
      NumberChars(j.literal);
    }
  }

  lemma {:induction false} ValueIsDelimited(a: Json, b: Json, x: string, y: string)
    requires Readable(a) && Readable(b) && EndsValue(x) && EndsValue(y)
    requires Write(a) + x == Write(b) + y
    ensures a == b && x == y
    decreases a, 1
  {
    hide WriteText, WriteItems, WriteEntries, IsNumber, KindAt;
    FirstCharTellsKind(a, x);
    FirstCharTellsKind(b, y);
    var s, t := Write(a) + x, Write(b) + y;
    match a
    case Null => assert s[4..] == x && t[4..] == y;
    case Bool(value) => assert s[|Write(a)|..] == x && t[|Write(a)|..] == y;
    case Number(literal) =>
      NumberChars(literal);
      NumberChars(b.literal);
      NumberIsDelimited(literal, b.literal, x, y);
    case Str(text) => TextIsPrefixFree(text, b.text, x, y);
    case Arr(items) =>
      assert s[1..] == WriteItems(items, "") + x && t[1..] == WriteItems(b.items, "") + y;
      ItemsArePrefixFree(items, b.items, "", x, y);
    case Obj(entries) =>
      assert s[1..] == WriteEntries(entries, "") + x && t[1..] == WriteEntries(b.entries, "") + y;
      EntriesArePrefixFree(entries, b.entries, "", x, y);
  }

  lemma ItemsUnfold(a: seq<Json>, comma: string, x: string)
    requires a != []
    ensures WriteItems(a, comma) + x == comma + (Write(a[0]) + (WriteItems(a[1..], ",") + x))
  {
    hide Write;
  }

  lemma ItemsHead(a: seq<Json>, comma: string, x: string)
    requires comma == "" || comma == ","
    requires forall i :: 0 <= i < |a| ==> Readable(a[i])
    ensures var s := WriteItems(a, comma) + x;
      && s != "" && (s[0] == ']' <==> a == []) && (comma == "," ==> EndsValue(s))
      && if a == [] then s[1..] == x else s[|comma|..] == Write(a[0]) + (WriteItems(a[1..], ",") + x)
  {
    if a != [] {
      hide Write, WellFormed;
      var rest := Write(a[0]) + (WriteItems(a[1..], ",") + x);
      FirstCharTellsKind(a[0], WriteItems(a[1..], ",") + x);
      ItemsUnfold(a, comma, x);
    }
  }

  lemma ItemsArePrefixFree(a: seq<Json>, b: seq<Json>, comma: string, x: string, y: string)
    requires comma == "" || comma == ","
    requires forall i :: 0 <= i < |a| ==> Readable(a[i])
    requires forall i :: 0 <= i < |b| ==> Readable(b[i])
    requires WriteItems(a, comma) + x == WriteItems(b, comma) + y
    ensures a == b && x == y
    decreases a, 0
  {
    hide Write, WriteItems, WellFormed;
    ItemsHead(a, comma, x);
    ItemsHead(b, comma, y);
    if a != [] {
      ItemsHead(a[1..], ",", x);
      ItemsHead(b[1..], ",", y);
      ValueIsDelimited(a[0], b[0], WriteItems(a[1..], ",") + x, WriteItems(b[1..], ",") + y);
      ItemsArePrefixFree(a[1..], b[1..], ",", x, y);
      assert a == [a[0]] + a[1..] && b == [b[0]] + b[1..];
    }
  }

  lemma EntriesUnfold(a: seq<(string, Json)>, comma: string, x: string)
    requires a != []
    ensures WriteEntries(a, comma) + x
      == comma + (WriteText(a[0].0) + (":" + (Write(a[0].1) + (WriteEntries(a[1..], ",") + x))))
  {
    hide WriteText, Write;
  }

  lemma EntriesHead(a: seq<(string, Json)>, comma: string, x: string)
    requires comma == "" || comma == ","
    ensures var s := WriteEntries(a, comma) + x;
      && s != "" && (s[0] == '}' <==> a == []) && (comma == "," ==> EndsValue(s))
      && if a == [] then s[1..] == x
         else s[|comma|..] == WriteText(a[0].0) + (":" + (Write(a[0].1) + (WriteEntries(a[1..], ",") + x)))
  {
    if a != [] {
      hide Write, WriteChars, WriteEntries;
      var rest := WriteText(a[0].0) + (":" + (Write(a[0].1) + (WriteEntries(a[1..], ",") + x)));
      assert rest[0] == '"';
      EntriesUnfold(a, comma, x);
    }
  }

  lemma EntriesArePrefixFree(a: seq<(string, Json)>, b: seq<(string, Json)>, comma: string, x: string, y: string)
    requires comma == "" || comma == ","
    requires forall i :: 0 <= i < |a| ==> Readable(a[i].1)
    requires forall i :: 0 <= i < |b| ==> Readable(b[i].1)
    requires WriteEntries(a, comma) + x == WriteEntries(b, comma) + y
    ensures a == b && x == y
    decreases a, 0
  {
    hide WriteText, Write, WriteEntries, WellFormed;
    EntriesHead(a, comma, x);
    EntriesHead(b, comma, y);
    if a != [] {
      var (key, value) := a[0];
      assert value < a[0];
      var after, after' := WriteEntries(a[1..], ",") + x, WriteEntries(b[1..], ",") + y;
      EntriesHead(a[1..], ",", x);
      EntriesHead(b[1..], ",", y);
      TextIsPrefixFree(key, b[0].0, ":" + (Write(value) + after), ":" + (Write(b[0].1) + after'));
      assert (":" + (Write(value) + after))[1..] == Write(value) + after;
      assert (":" + (Write(b[0].1) + after'))[1..] == Write(b[0].1) + after';
      ValueIsDelimited(value, b[0].1, after, after');
      EntriesArePrefixFree(a[1..], b[1..], ",", x, y);
      assert a == [a[0]] + a[1..] && b == [b[0]] + b[1..];
    }
  }

  // --- What is written is long enough ---------------------------------------------------------------

  lemma {:induction false} CharsAreLong(s: string)
    ensures |s| < |WriteChars(s)|
  {
    if s != "" {
      CharsAreLong(s[1..]);
    }
  }

  lemma {:induction false} ValueIsLong(j: Json)
    requires Readable(j)
    ensures Size(j) <= |Write(j)|
    decreases j, 1
  {
    match j
    case Number(literal) => NumberChars(literal);
    case Str(text) => CharsAreLong(text);
    case Arr(items) => ItemsAreLong(items, "");
    case Obj(entries) => EntriesAreLong(entries, "");
    case _ =>
  }

  lemma ItemsAreLong(items: seq<Json>, comma: string)
    requires forall i :: 0 <= i < |items| ==> Readable(items[i])
    ensures SizeItems(items) <= |WriteItems(items, comma)|
    decreases items, 0
  {
    if items != [] {
      ValueIsLong(items[0]);
      ItemsAreLong(items[1..], ",");
    }
  }

  lemma EntriesAreLong(entries: seq<(string, Json)>, comma: string)
    requires forall i :: 0 <= i < |entries| ==> Readable(entries[i].1)
    ensures SizeEntries(entries) <= |WriteEntries(entries, comma)|
    decreases entries, 0
  {
    if entries != [] {
      var (key, value) := entries[0];
      assert value < entries[0];
      CharsAreLong(key);
      ValueIsLong(value);
      EntriesAreLong(entries[1..], ",");
    }
  }

  // --- The codec ------------------------------------------------------------------------------------

  ghost predicate IsWritten(s: string, j: Json) { Readable(j) && Write(j) == s }

  ghost function Read(s: string): Option<Json> {
    if exists j :: IsWritten(s, j) then
      var j :| IsWritten(s, j);
      Some(j)
    else None
  }

  /** The laws hold of a library that prints every document as compact JSON, its numbers verbatim. */
  lemma JsonIsLawful(c: Codec)
    requires forall s :: c.loads(s) == Read(s)
    requires forall j :: c.dumps(j) == Write(j)
    requires c.isNumber == (s => IsNumber(s))
    ensures Lawful(c)
  {
    forall s | c.loads(s).Some?
      ensures WellFormed(c.isNumber, c.loads(s).value) && Size(c.loads(s).value) <= |s|
    {
      var j := c.loads(s).value;
      assert IsWritten(s, j);
      ValueIsLong(j);
    }
    forall j | WellFormed(c.isNumber, j)
      ensures c.loads(c.dumps(j)) == Some(j)
    {
      assert IsWritten(Write(j), j);
      var k := Read(Write(j)).value;
      assert IsWritten(Write(j), k);
      ValueIsDelimited(j, k, "", "");
    }
  }

  /** There is such a library, so the laws can be met. */
  lemma LawfulCodecExists()
    ensures exists c :: Lawful(c)
  {
    var c := Codec(s => Read(s), j => Write(j), s => IsNumber(s));
    JsonIsLawful(c);
    assert Lawful(c);
  }
}
