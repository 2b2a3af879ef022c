/** Blanking unsafe links in a spreadsheet snapshot, including those inside JSON stored as text. */
module WorkbookScrub {
  import opened Wrappers

  datatype Json =
    | Null
    | Bool(value: bool)
    | Number(literal: string)
    | Str(text: string)
    | Arr(items: seq<Json>)
    | Obj(entries: seq<(string, Json)>)

  predicate IsContainer(j: Json) { j.Arr? || j.Obj? }

  // --- Links --------------------------------------------------------------------------------------

  const LINK_KEYS := {"url", "payload", "href", "link"}
  const SAFE_SCHEMES := {"http", "https", "mailto", "tel"}

  predicate IsIgnored(c: char) { c <= ' ' || c == '\U{7f}' }

  function LowerChar(c: char): char {
    if 'A' <= c <= 'Z' then (c as int + 32) as char else c
  }

  /** The link without the characters browsers skip in a scheme, in lower case. */
  function Normalise(link: string): string {
    if link == "" then ""
    else (if IsIgnored(link[0]) then "" else [LowerChar(link[0])]) + Normalise(link[1..])
  }

  predicate IsSchemeStart(c: char) { 'a' <= c <= 'z' }

  predicate IsSchemeChar(c: char) {
    IsSchemeStart(c) || '0' <= c <= '9' || c == '+' || c == '.' || c == '-'
  }

  function SchemeRun(s: string): (n: nat)
    ensures n <= |s| && (forall i :: 0 <= i < n ==> IsSchemeChar(s[i])) && (n < |s| ==> !IsSchemeChar(s[n]))
  {
    if s == "" || !IsSchemeChar(s[0]) then 0 else 1 + SchemeRun(s[1..])
  }

  /** The scheme a link starts with, if it starts with one. */
  function Scheme(s: string): Option<string> {
    var n := SchemeRun(s);
    if s != "" && IsSchemeStart(s[0]) && n < |s| && s[n] == ':' then Some(s[..n]) else None
  }

  predicate IsSafeLink(link: string) {
    match Scheme(Normalise(link)) case None => true case Some(scheme) => scheme in SAFE_SCHEMES
  }

  /** A letter followed by letters, digits, plus, full stop or hyphen (section 3.1 of RFC 3986). */
  predicate IsScheme(s: string) {
    s != "" && IsSchemeStart(s[0]) && forall i :: 0 <= i < |s| ==> IsSchemeChar(s[i])
  }

  const LETTERS := "abcdefghijklmnopqrstuvwxyz"

  lemma SchemeIff(s: string)
    ensures IsScheme(s) <==> s != "" && s[0] in LETTERS && forall c :: c in s ==> c in LETTERS + "0123456789+.-"
  {
    forall c: char
      ensures IsSchemeStart(c) <==> c in LETTERS
      ensures IsSchemeChar(c) <==> c in LETTERS + "0123456789+.-"
    {
      LetterIff(c);
      DigitIff(c);
    }
  }

  lemma LetterIff(c: char)
    ensures 'a' <= c <= 'z' <==> c in LETTERS
  {
    if 'a' <= c <= 'z' {
      assert LETTERS[c as int - 'a' as int] == c;
    }
  }

  lemma DigitIff(c: char)
    ensures '0' <= c <= '9' <==> c in "0123456789"
  {
    if '0' <= c <= '9' {
      assert "0123456789"[c as int - '0' as int] == c;
    }
  }

  /** The scan finds the scheme the grammar gives the link, and there is never a choice of two. */
  lemma SchemeIsTheGrammars(s: string, scheme: string)
    ensures Scheme(s) == Some(scheme) <==> IsScheme(scheme) && scheme + ":" <= s
  {
    var n := SchemeRun(s);
    if Scheme(s) == Some(scheme) {
      assert s == scheme + ":" + s[n + 1..];
    }
    if IsScheme(scheme) && scheme + ":" <= s {
      var m := |scheme|;
      assert forall i :: 0 <= i < m ==> s[i] == (scheme + ":")[i] == scheme[i];
      assert s[m] == (scheme + ":")[m] == ':';
      assert n == m;
      assert s[..n] == scheme;
    }
  }

  /** A link is safe unless what is left of it starts with a scheme off the list. */
  lemma SafeLinkIff(link: string)
    ensures IsSafeLink(link) <==>
      forall scheme :: IsScheme(scheme) && scheme + ":" <= Normalise(link) ==> scheme in SAFE_SCHEMES
  {
    forall scheme
      ensures Scheme(Normalise(link)) == Some(scheme) <==> IsScheme(scheme) && scheme + ":" <= Normalise(link)
    {
      SchemeIsTheGrammars(Normalise(link), scheme);
    }
  }

  lemma {:induction false} NormaliseConcat(a: string, b: string)
    ensures Normalise(a + b) == Normalise(a) + Normalise(b)
  {
    if a == "" {
      assert a + b == b;
    } else {
      assert (a + b)[1..] == a[1..] + b;
      NormaliseConcat(a[1..], b);
    }
  }

  lemma NormaliseAround(a: string, c: char, b: string)
    ensures Normalise(a + [c] + b) == Normalise(a) + (if IsIgnored(c) then "" else [LowerChar(c)]) + Normalise(b)
  {
    NormaliseConcat(a + [c], b);
    NormaliseConcat(a, [c]);
    assert [c][1..] == "";
  }

  /** Control characters, spaces and deletes make no difference to a link, wherever they stand: a scheme cannot
      hide behind them. */
  lemma IgnoredCharMakesNoDifference(a: string, c: char, b: string)
    requires c <= ' ' || c == '\U{7f}'
    ensures IsSafeLink(a + [c] + b) == IsSafeLink(a + b)
  {
    hide Scheme, Normalise;
    NormaliseAround(a, c, b);
    NormaliseConcat(a, b);
    assert Normalise(a) + "" == Normalise(a);
  }

  /** Nor does the case of an ASCII letter. */
  lemma CaseMakesNoDifference(a: string, c: char, b: string)
    requires 'A' <= c <= 'Z'
    ensures IsSafeLink(a + [c] + b) == IsSafeLink(a + [c + ' '] + b)
  {
    hide Scheme, Normalise;
    NormaliseAround(a, c, b);
    NormaliseAround(a, c + ' ', b);
  }

  predicate IsPlainLink(link: string) {
    forall i :: 0 <= i < |link| ==> ' ' < link[i] && link[i] != '\U{7f}' && !('A' <= link[i] <= 'Z')
  }

  lemma {:induction false} PlainLinkIsNormal(link: string)
    requires IsPlainLink(link)
    ensures Normalise(link) == link
  {
    if link != "" {
      PlainLinkIsNormal(link[1..]);
    }
  }

  /** A link without any of those characters is safe unless it begins with a scheme off the list. */
  lemma PlainLinkSafeIff(link: string)
    requires IsPlainLink(link)
    ensures IsSafeLink(link) <==>
      forall scheme :: IsScheme(scheme) && scheme + ":" <= link ==> scheme in {"http", "https", "mailto", "tel"}
  {
    PlainLinkIsNormal(link);
    SafeLinkIff(link);
  }

  /** For one: no script runs from a link. */
  lemma ScriptLinkIsUnsafe(rest: string)
    requires IsPlainLink(rest)
    ensures !IsSafeLink("java\tscript:" + rest) && !IsSafeLink("Javascript:" + rest)
  {
    hide IsSafeLink, IsPlainLink;
    var script := "script:" + rest;
    PlainScriptIsUnsafe(rest);
    assert "java" + script == "javascript:" + rest;
    IgnoredCharMakesNoDifference("java", '\t', script);
    assert "java" + ['\t'] + script == "java\tscript:" + rest;
    CaseMakesNoDifference("", 'J', "avascript:" + rest);
    assert "" + ['J'] + ("avascript:" + rest) == "Javascript:" + rest;
    assert 'J' + ' ' == 'j' && "" + ['j'] + ("avascript:" + rest) == "javascript:" + rest;
  }

  lemma PlainScriptIsUnsafe(rest: string)
    requires IsPlainLink(rest)
    ensures !IsSafeLink("javascript:" + rest)
  {
    hide IsSafeLink;
    var scheme, link := "javascript", "javascript:" + rest;
    assert scheme + ":" <= link;
    assert IsPlainLink(link) by {
      forall i | 0 <= i < |link|
        ensures ' ' < link[i] && link[i] != '\U{7f}' && !('A' <= link[i] <= 'Z')
      {
        if i >= 11 {
          assert link[i] == rest[i - 11];
        }
      }
    }
    PlainLinkSafeIff(link);
  }

  // --- The JSON library ---------------------------------------------------------------------------

  /** A number is kept as the text the library prints for it; `isNumber` tells which texts those are. */
  datatype Codec = Codec(loads: string -> Option<Json>, dumps: Json -> string, isNumber: string -> bool)

  /** The characters a document's texts and keys take, and one for each value: what its text takes at least. */
  function Size(j: Json): nat {
    match j
    case Str(text) => 1 + |text|
    case Arr(items) => 1 + SizeItems(items)
    case Obj(entries) => 1 + SizeEntries(entries)
    case _ => 1
  }

  function SizeItems(items: seq<Json>): nat {
    if items == [] then 0 else Size(items[0]) + SizeItems(items[1..])
  }

  function SizeEntries(entries: seq<(string, Json)>): nat {
    if entries == [] then 0 else
    var (key, value) := entries[0];
    assert value < entries[0];
    |key| + Size(value) + SizeEntries(entries[1..])
  }

  /** A document the library can hold: no object has two entries under one key, and every number is one it prints. */
  predicate WellFormed(isNumber: string -> bool, j: Json) {
    match j
    case Number(literal) => isNumber(literal)
    case Arr(items) => forall i :: 0 <= i < |items| ==> WellFormed(isNumber, items[i])
    case Obj(entries) =>
      && (forall i, k :: 0 <= i < k < |entries| ==> entries[i].0 != entries[k].0)
      && forall i :: 0 <= i < |entries| ==> WellFormed(isNumber, entries[i].1)
    case _ => true
  }

  /** What is asked of the JSON library: text is at least as long as what it holds, a parsed document
      is well-formed, and printing such a document and parsing it again gives it back. */
  ghost predicate Lawful(c: Codec) {
    && (forall s :: c.loads(s).Some? ==> WellFormed(c.isNumber, c.loads(s).value) && Size(c.loads(s).value) <= |s|)
    && (forall j :: WellFormed(c.isNumber, j) ==> c.loads(c.dumps(j)) == Some(j))
  }

  // --- Scrubbing ----------------------------------------------------------------------------------

  function ScrubLinks(c: Codec, node: Json): Json
    requires Lawful(c)
    decreases Size(node), 1
  {
    match node
    case Obj(entries) => Obj(ScrubEntries(c, entries))
    case Arr(items) => Arr(ScrubItems(c, items))
    case _ => node
  }

  function ScrubItems(c: Codec, items: seq<Json>): seq<Json>
    requires Lawful(c)
    decreases SizeItems(items), 3
  {
    if items == [] then [] else [ScrubLinks(c, items[0])] + ScrubItems(c, items[1..])
  }

  function ScrubEntries(c: Codec, entries: seq<(string, Json)>): seq<(string, Json)>
    requires Lawful(c)
    decreases SizeEntries(entries), 3
  {
    if entries == [] then [] else
    [(entries[0].0, ScrubEntry(c, entries[0].0, entries[0].1))] + ScrubEntries(c, entries[1..])
  }

  function ScrubEntry(c: Codec, key: string, value: Json): Json
    requires Lawful(c)
    decreases Size(value), 2
  {
    if value.Str? then
      if key in LINK_KEYS && !IsSafeLink(value.text) then Str("")
      else if key == "data" then Str(ScrubEmbedded(c, value.text))
      else value
    else ScrubLinks(c, value)
  }

  /** The measure drops here: a document is smaller than the text value that holds it. */
  function ScrubEmbedded(c: Codec, text: string): string
    requires Lawful(c)
    decreases 1 + |text|, 0
  {
    match c.loads(text)
    case Some(parsed) => if IsContainer(parsed) then c.dumps(ScrubLinks(c, parsed)) else text
    case None => text
  }

  /** What becomes of a text under a key, by the key: links are blanked if unsafe, `data` is looked into, and any
      other text stays. */
  lemma TextUnderKey(c: Codec, key: string, text: string)
    requires Lawful(c)
    ensures ScrubLinks(c, Obj([(key, Str(text))])) == Obj([(key, Str(
      if key in {"url", "payload", "href", "link"} then (if IsSafeLink(text) then text else "")
      else if key == "data" then ScrubEmbedded(c, text)
      else text))])
  {
    hide IsSafeLink;
    var entries := [(key, Str(text))];
    assert entries[1..] == [];
    assert ScrubEntries(c, entries) == [(key, ScrubEntry(c, key, Str(text)))] + ScrubEntries(c, entries[1..]);
  }

  /** And of a text that holds JSON: a container is scrubbed and printed again, any other text is left alone. */
  lemma EmbeddedText(c: Codec, text: string)
    requires Lawful(c)
    ensures ScrubEmbedded(c, text) == match c.loads(text)
      case Some(Arr(items)) => c.dumps(ScrubLinks(c, Arr(items)))
      case Some(Obj(entries)) => c.dumps(ScrubLinks(c, Obj(entries)))
      case _ => text
  {
  }

  // --- The scrubbed document, position by position ------------------------------------------------

  lemma {:induction false} ScrubItemsAt(c: Codec, items: seq<Json>)
    requires Lawful(c)
    ensures |ScrubItems(c, items)| == |items|
    ensures forall i :: 0 <= i < |items| ==>
      Size(items[i]) <= SizeItems(items) && ScrubItems(c, items)[i] == ScrubLinks(c, items[i])
    decreases |items|
  {
    if items != [] {
      ScrubItemsAt(c, items[1..]);
      assert forall i :: 0 < i < |items| ==> items[i] == items[1..][i - 1];
    }
  }

  lemma {:induction false} ScrubEntriesAt(c: Codec, entries: seq<(string, Json)>)
    requires Lawful(c)
    ensures |ScrubEntries(c, entries)| == |entries|
    ensures forall i :: 0 <= i < |entries| ==>
      && Size(entries[i].1) <= SizeEntries(entries)
      && ScrubEntries(c, entries)[i] == (entries[i].0, ScrubEntry(c, entries[i].0, entries[i].1))
    decreases |entries|
  {
    if entries != [] {
      ScrubEntriesAt(c, entries[1..]);
      assert forall i :: 0 < i < |entries| ==> entries[i] == entries[1..][i - 1];
    }
  }

  // --- Safety ---------------------------------------------------------------------------------------

  /** No link key holds an unsafe text, at any depth, nor inside a container held as text under "data". */
  ghost predicate Safe(c: Codec, j: Json)
    requires Lawful(c)
    decreases Size(j), 1
  {
    match j
    case Arr(items) =>
      ScrubItemsAt(c, items);
      forall i :: 0 <= i < |items| ==> Safe(c, items[i])
    case Obj(entries) =>
      ScrubEntriesAt(c, entries);
      forall i :: 0 <= i < |entries| ==> SafeEntry(c, entries[i].0, entries[i].1)
    case _ => true
  }

  ghost predicate SafeEntry(c: Codec, key: string, value: Json)
    requires Lawful(c)
    decreases Size(value), 2
  {
    if value.Str? then
      && (key in LINK_KEYS ==> IsSafeLink(value.text))
      && (key == "data" ==> SafeText(c, value.text))
    else Safe(c, value)
  }

  ghost predicate SafeText(c: Codec, text: string)
    requires Lawful(c)
    decreases 1 + |text|, 0
  {
    match c.loads(text)
    case Some(parsed) => parsed.Arr? || parsed.Obj? ==> Safe(c, parsed)
    case None => true
  }

  lemma EmptyLinkIsSafe()
    ensures IsSafeLink("")
  {
  }

  /** Scrubbing keeps the keys of every object and the numbers, so what it prints can be parsed again. */
  lemma {:induction false} ScrubKeepsWellFormed(c: Codec, j: Json)
    requires Lawful(c) && WellFormed(c.isNumber, j)
    ensures WellFormed(c.isNumber, ScrubLinks(c, j)) && (IsContainer(j) ==> IsContainer(ScrubLinks(c, j)))
    decreases Size(j), 1
  {
    hide ScrubItems, ScrubEntries, ScrubEntry;
    match j
    case Arr(items) =>
      ScrubItemsAt(c, items);
      forall i | 0 <= i < |items|
        ensures WellFormed(c.isNumber, ScrubItems(c, items)[i])
      {
        ScrubKeepsWellFormed(c, items[i]);
      }
    case Obj(entries) =>
      ScrubEntriesAt(c, entries);
      forall i | 0 <= i < |entries|
        ensures WellFormed(c.isNumber, ScrubEntries(c, entries)[i].1)
      {
        ScrubEntryKeepsWellFormed(c, entries[i].0, entries[i].1);
      }
    case _ =>
  }

  lemma ScrubEntryKeepsWellFormed(c: Codec, key: string, value: Json)
    requires Lawful(c) && WellFormed(c.isNumber, value)
    ensures WellFormed(c.isNumber, ScrubEntry(c, key, value))
    decreases Size(value), 2
  {
    if !value.Str? {
      ScrubKeepsWellFormed(c, value);
    }
  }

  /** Text holding a container is replaced by the print of the scrubbed container, which parses back to it. */
  lemma EmbeddedParsesBack(c: Codec, text: string)
    requires Lawful(c) && c.loads(text).Some? && IsContainer(c.loads(text).value)
    ensures var scrubbed := ScrubLinks(c, c.loads(text).value);
      && ScrubEmbedded(c, text) == c.dumps(scrubbed)
      && c.loads(ScrubEmbedded(c, text)) == Some(scrubbed) && IsContainer(scrubbed)
  {
    ScrubKeepsWellFormed(c, c.loads(text).value);
  }

  /** After scrubbing, no link key anywhere holds an unsafe link. */
  lemma {:induction false} ScrubbedIsSafe(c: Codec, j: Json)
    requires Lawful(c)
    ensures Safe(c, ScrubLinks(c, j))
    decreases Size(j), 1
  {
    hide ScrubItems, ScrubEntries, ScrubEntry, SafeEntry;
    match j
    case Arr(items) =>
      ScrubItemsAt(c, items);
      forall i | 0 <= i < |items|
        ensures Safe(c, ScrubItems(c, items)[i])
      {
        ScrubbedIsSafe(c, items[i]);
      }
    case Obj(entries) =>
      ScrubEntriesAt(c, entries);
      forall i | 0 <= i < |entries|
        ensures SafeEntry(c, ScrubEntries(c, entries)[i].0, ScrubEntries(c, entries)[i].1)
      {
        ScrubbedEntryIsSafe(c, entries[i].0, entries[i].1);
      }
    case _ =>
  }

  lemma ScrubbedEntryIsSafe(c: Codec, key: string, value: Json)
    requires Lawful(c)
    ensures SafeEntry(c, key, ScrubEntry(c, key, value))
    decreases Size(value), 2
  {
    hide IsSafeLink, Safe, SafeText, ScrubEmbedded;
    EmptyLinkIsSafe();
    if value.Str? {
      if key == "data" {
        ScrubbedTextIsSafe(c, value.text);
      }
    } else {
      ScrubbedIsSafe(c, value);
      assert !ScrubLinks(c, value).Str?;
    }
  }

  lemma ScrubbedTextIsSafe(c: Codec, text: string)
    requires Lawful(c)
    ensures SafeText(c, ScrubEmbedded(c, text))
    decreases 1 + |text|, 0
  {
    if c.loads(text).Some? && IsContainer(c.loads(text).value) {
      EmbeddedParsesBack(c, text);
      ScrubbedIsSafe(c, c.loads(text).value);
    }
  }

  // --- What scrubbing leaves alone --------------------------------------------------------------------

  /** Every container held as text under "data" is written the way the library prints it. */
  ghost predicate Canonical(c: Codec, j: Json)
    requires Lawful(c)
    decreases Size(j), 1
  {
    match j
    case Arr(items) =>
      ScrubItemsAt(c, items);
      forall i :: 0 <= i < |items| ==> Canonical(c, items[i])
    case Obj(entries) =>
      ScrubEntriesAt(c, entries);
      forall i :: 0 <= i < |entries| ==> CanonicalEntry(c, entries[i].0, entries[i].1)
    case _ => true
  }

  ghost predicate CanonicalEntry(c: Codec, key: string, value: Json)
    requires Lawful(c)
    decreases Size(value), 2
  {
    if value.Str? then key == "data" ==> CanonicalText(c, value.text) else Canonical(c, value)
  }

  ghost predicate CanonicalText(c: Codec, text: string)
    requires Lawful(c)
    decreases 1 + |text|, 0
  {
    c.loads(text).Some? && IsContainer(c.loads(text).value) ==>
      c.dumps(c.loads(text).value) == text && Canonical(c, c.loads(text).value)
  }

  /** Scrubbing changes nothing exactly when every link is safe and every embedded document is already
      written canonically: it never blanks or rewrites more than it has to. */
  lemma {:induction false} UnchangedIff(c: Codec, j: Json)
    requires Lawful(c)
    ensures ScrubLinks(c, j) == j <==> Safe(c, j) && Canonical(c, j)
    decreases Size(j), 1
  {
    hide ScrubItems, ScrubEntries, ScrubEntry, SafeEntry, CanonicalEntry;
    match j
    case Arr(items) =>
      ScrubItemsAt(c, items);
      forall i | 0 <= i < |items|
        ensures ScrubItems(c, items)[i] == items[i] <==> Safe(c, items[i]) && Canonical(c, items[i])
      {
        UnchangedIff(c, items[i]);
      }
      assert ScrubItems(c, items) == items <==> forall i :: 0 <= i < |items| ==> ScrubItems(c, items)[i] == items[i];
    case Obj(entries) =>
      ScrubEntriesAt(c, entries);
      forall i | 0 <= i < |entries|
        ensures ScrubEntries(c, entries)[i] == entries[i] <==>
          SafeEntry(c, entries[i].0, entries[i].1) && CanonicalEntry(c, entries[i].0, entries[i].1)
      {
        UnchangedEntryIff(c, entries[i].0, entries[i].1);
      }
      assert ScrubEntries(c, entries) == entries <==>
        forall i :: 0 <= i < |entries| ==> ScrubEntries(c, entries)[i] == entries[i];
    case _ =>
  }

  lemma UnchangedEntryIff(c: Codec, key: string, value: Json)
    requires Lawful(c)
    ensures ScrubEntry(c, key, value) == value <==> SafeEntry(c, key, value) && CanonicalEntry(c, key, value)
    decreases Size(value), 2
  {
    EmptyLinkIsSafe();
    if value.Str? {
      if key == "data" {
        UnchangedTextIff(c, value.text);
      }
    } else {
      UnchangedIff(c, value);
    }
  }

  lemma UnchangedTextIff(c: Codec, text: string)
    requires Lawful(c)
    ensures ScrubEmbedded(c, text) == text <==> SafeText(c, text) && CanonicalText(c, text)
    decreases 1 + |text|, 0
  {
    if c.loads(text).Some? && IsContainer(c.loads(text).value) {
      EmbeddedParsesBack(c, text);
      UnchangedIff(c, c.loads(text).value);
    }
  }

  lemma {:induction false} ScrubbedIsCanonical(c: Codec, j: Json)
    requires Lawful(c)
    ensures Canonical(c, ScrubLinks(c, j))
    decreases Size(j), 1
  {
    hide ScrubItems, ScrubEntries, ScrubEntry, CanonicalEntry;
    match j
    case Arr(items) =>
      ScrubItemsAt(c, items);
      forall i | 0 <= i < |items|
        ensures Canonical(c, ScrubItems(c, items)[i])
      {
        ScrubbedIsCanonical(c, items[i]);
      }
    case Obj(entries) =>
      ScrubEntriesAt(c, entries);
      forall i | 0 <= i < |entries|
        ensures CanonicalEntry(c, ScrubEntries(c, entries)[i].0, ScrubEntries(c, entries)[i].1)
      {
        ScrubbedEntryIsCanonical(c, entries[i].0, entries[i].1);
      }
    case _ =>
  }

  lemma ScrubbedEntryIsCanonical(c: Codec, key: string, value: Json)
    requires Lawful(c)
    ensures CanonicalEntry(c, key, ScrubEntry(c, key, value))
    decreases Size(value), 2
  {
    if value.Str? {
      if key == "data" && c.loads(value.text).Some? && IsContainer(c.loads(value.text).value) {
        EmbeddedParsesBack(c, value.text);
        ScrubbedIsCanonical(c, c.loads(value.text).value);
      }
    } else {
      ScrubbedIsCanonical(c, value);
      assert !ScrubLinks(c, value).Str?;
    }
  }

  /** Scrubbing a second time changes nothing. */
  lemma ScrubIsIdempotent(c: Codec, j: Json)
    requires Lawful(c)
    ensures ScrubLinks(c, ScrubLinks(c, j)) == ScrubLinks(c, j)
  {
    ScrubbedIsSafe(c, j);
    ScrubbedIsCanonical(c, j);
    UnchangedIff(c, ScrubLinks(c, j));
  }

  // --- The shape --------------------------------------------------------------------------------------

  /** The same document but for blanked unsafe links and rewritten embedded documents of the same shape. */
  ghost predicate SameShape(c: Codec, a: Json, b: Json)
    requires Lawful(c)
    decreases Size(a), 1
  {
    match a
    case Arr(items) =>
      ScrubItemsAt(c, items);
      b.Arr? && |b.items| == |items| && forall i :: 0 <= i < |items| ==> SameShape(c, items[i], b.items[i])
    case Obj(entries) =>
      ScrubEntriesAt(c, entries);
      b.Obj? && |b.entries| == |entries|
      && forall i :: 0 <= i < |entries| ==>
           b.entries[i].0 == entries[i].0 && SameShapeEntry(c, entries[i].0, entries[i].1, b.entries[i].1)
    case _ => a == b
  }

  ghost predicate SameShapeEntry(c: Codec, key: string, a: Json, b: Json)
    requires Lawful(c)
    decreases Size(a), 2
  {
    if !a.Str? then SameShape(c, a, b) else
    || a == b
    || (key in LINK_KEYS && !IsSafeLink(a.text) && b == Str(""))
    || (key == "data" && b.Str? && SameShapeText(c, a.text, b.text))
  }

  ghost predicate SameShapeText(c: Codec, a: string, b: string)
    requires Lawful(c)
    decreases 1 + |a|, 0
  {
    c.loads(a).Some? && IsContainer(c.loads(a).value) && c.loads(b).Some?
      && SameShape(c, c.loads(a).value, c.loads(b).value)
  }

  /** Scrubbing keeps the shape: keys, lengths and every other value stay, and only unsafe links are blanked. */
  lemma {:induction false} ScrubKeepsShape(c: Codec, j: Json)
    requires Lawful(c)
    ensures SameShape(c, j, ScrubLinks(c, j))
    decreases Size(j), 1
  {
    hide ScrubItems, ScrubEntries, ScrubEntry, SameShapeEntry;
    match j
    case Arr(items) =>
      ScrubItemsAt(c, items);
      forall i | 0 <= i < |items|
        ensures SameShape(c, items[i], ScrubItems(c, items)[i])
      {
        ScrubKeepsShape(c, items[i]);
      }
    case Obj(entries) =>
      ScrubEntriesAt(c, entries);
      forall i | 0 <= i < |entries|
        ensures SameShapeEntry(c, entries[i].0, entries[i].1, ScrubEntries(c, entries)[i].1)
      {
        ScrubKeepsEntryShape(c, entries[i].0, entries[i].1);
      }
    case _ =>
  }

  lemma ScrubKeepsEntryShape(c: Codec, key: string, value: Json)
    requires Lawful(c)
    ensures SameShapeEntry(c, key, value, ScrubEntry(c, key, value))
    decreases Size(value), 2
  {
    if value.Str? {
      if key == "data" && c.loads(value.text).Some? && IsContainer(c.loads(value.text).value) {
        EmbeddedParsesBack(c, value.text);
        ScrubKeepsShape(c, c.loads(value.text).value);
      }
    } else {
      ScrubKeepsShape(c, value);
    }
  }
}
