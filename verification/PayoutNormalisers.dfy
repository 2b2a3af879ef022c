/** What the payout reader takes to be the same heading, account number, e-mail address or amount of text. */
module PayoutNormalisers {
  import opened Wrappers
  import opened PayoutAmount
  import opened PayoutTable

  predicate IsLetterOrDigit(c: char) { 'a' <= c <= 'z' || 'A' <= c <= 'Z' || '0' <= c <= '9' }

  lemma {:induction false} KeepConcat(a: string, b: string)
    ensures KeepLettersAndDigits(a + b) == KeepLettersAndDigits(a) + KeepLettersAndDigits(b)
  {
    hide IsAsciiLetterOrDigit;
    if a == "" {
      assert a + b == b;
    } else {
      assert (a + b)[1..] == a[1..] + b;
      KeepConcat(a[1..], b);
    }
  }

  lemma KeepAround(a: string, c: char, b: string)
    ensures KeepLettersAndDigits(a + [c] + b)
      == KeepLettersAndDigits(a) + (if IsLetterOrDigit(c) then [c] else "") + KeepLettersAndDigits(b)
  {
    KeepConcat(a + [c], b);
    KeepConcat(a, [c]);
    assert [c][1..] == "";
  }

  lemma {:induction false} KeepsLettersAndDigits(s: string)
    requires forall i :: 0 <= i < |s| ==> IsLetterOrDigit(s[i])
    ensures KeepLettersAndDigits(s) == s
  {
    if s != "" {
      KeepsLettersAndDigits(s[1..]);
    }
  }

  lemma {:induction false} UpperConcat(a: string, b: string)
    ensures Upper(a + b) == Upper(a) + Upper(b)
  {
    if a == "" {
      assert a + b == b;
    } else {
      assert (a + b)[1..] == a[1..] + b;
      UpperConcat(a[1..], b);
    }
  }

  lemma {:induction false} UpperAt(s: string)
    ensures |Upper(s)| == |s|
    ensures forall i :: 0 <= i < |s| ==> Upper(s)[i] == if 'a' <= s[i] <= 'z' then s[i] - ' ' else s[i]
  {
    if s != "" {
      UpperAt(s[1..]);
    }
  }

  lemma {:induction false} LowerConcat(a: string, b: string)
    ensures Lower(a + b) == Lower(a) + Lower(b)
  {
    if a == "" {
      assert a + b == b;
    } else {
      assert (a + b)[1..] == a[1..] + b;
      LowerConcat(a[1..], b);
    }
  }

  // --- Account numbers ------------------------------------------------------------------------------

  /** Spaces and punctuation make no difference to an account number, */
  lemma AccountIgnoresPunctuation(a: string, c: char, b: string)
    requires !IsLetterOrDigit(c)
    ensures NormalizeAccountNumber(a + [c] + b) == NormalizeAccountNumber(a + b)
  {
    KeepAround(a, c, b);
    KeepConcat(a, b);
    assert KeepLettersAndDigits(a) + "" == KeepLettersAndDigits(a);
  }

  /** nor does the case of a letter, */
  lemma AccountIgnoresCase(a: string, c: char, b: string)
    requires 'a' <= c <= 'z'
    ensures NormalizeAccountNumber(a + [c] + b) == NormalizeAccountNumber(a + [c - ' '] + b)
  {
    var left, right := KeepLettersAndDigits(a), KeepLettersAndDigits(b);
    KeepAround(a, c, b);
    KeepAround(a, c - ' ', b);
    UpperAround(left, c, right);
    UpperAround(left, c - ' ', right);
  }

  lemma UpperAround(a: string, c: char, b: string)
    ensures Upper(a + [c] + b) == Upper(a) + [if 'a' <= c <= 'z' then c - ' ' else c] + Upper(b)
  {
    UpperConcat(a + [c], b);
    UpperConcat(a, [c]);
    assert [c][1..] == "";
  }

  /** nor a leading zero, which a spreadsheet drops from a number. */
  lemma AccountIgnoresLeadingZero(s: string)
    ensures NormalizeAccountNumber("0" + s) == NormalizeAccountNumber(s)
  {
    assert ("0" + s)[1..] == s;
    var kept := KeepLettersAndDigits(s);
    assert KeepLettersAndDigits("0" + s) == "0" + kept;
    assert ("0" + kept)[1..] == kept;
    assert Upper("0" + kept) == "0" + Upper(kept);
    assert ("0" + Upper(kept))[1..] == Upper(kept);
  }

  /** Otherwise it counts as it stands; without a letter or a digit there is none. */
  lemma PlainAccountIsKept(s: string)
    requires forall i :: 0 <= i < |s| ==> 'A' <= s[i] <= 'Z' || '0' <= s[i] <= '9'
    requires s != "" ==> s[0] != '0'
    ensures NormalizeAccountNumber(s) == if s == "" then None else Some(s)
  {
    KeepsLettersAndDigits(s);
    UpperAt(s);
    assert Upper(s) == s;
  }

  // --- Headings -------------------------------------------------------------------------------------

  /** Spaces and punctuation make no difference to a heading, nor does the case of a letter. */
  lemma HeadingIgnores(a: string, c: char, b: string)
    ensures !IsLetterOrDigit(c) ==> NormalizeHeader(Text(a + [c] + b)) == NormalizeHeader(Text(a + b))
    ensures 'A' <= c <= 'Z' ==> NormalizeHeader(Text(a + [c] + b)) == NormalizeHeader(Text(a + [c + ' '] + b))
  {
    LowerAround(a, c, b);
    LowerConcat(a, b);
    KeepAround(Lower(a), LowerChar(c), Lower(b));
    KeepConcat(Lower(a), Lower(b));
    assert KeepLettersAndDigits(Lower(a)) + "" == KeepLettersAndDigits(Lower(a));
    if 'A' <= c <= 'Z' {
      LowerAround(a, c + ' ', b);
    }
  }

  lemma LowerAround(a: string, c: char, b: string)
    ensures Lower(a + [c] + b) == Lower(a) + [if 'A' <= c <= 'Z' then c + ' ' else c] + Lower(b)
  {
    LowerConcat(a + [c], b);
    LowerConcat(a, [c]);
    assert [c][1..] == "";
  }

  predicate IsPlainHeading(s: string) {
    s != "" && forall i :: 0 <= i < |s| ==> 'a' <= s[i] <= 'z' || '0' <= s[i] <= '9'
  }

  lemma PlainHeadingIsKept(s: string)
    requires IsPlainHeading(s)
    ensures NormalizeHeader(Text(s)) == s && NormalizeHeader(Blank) == ""
  {
    LowerAt(s);
    assert Lower(s) == s;
    KeepsLettersAndDigits(s);
  }

  /** What leaves the bank comes before what is only part of it, and the employee before the account's holder. */
  lemma TotalPayComesFirst()
    ensures Aliases(Amount)[0] == "totalpay" && Aliases(Name)[0] == "employeename"
    ensures "netpay" in Aliases(Amount)[1..] && "amount" in Aliases(Amount)[1..]
    ensures "accountholdername" in Aliases(Name)[1..]
    ensures Aliases(Amount)[|Aliases(Amount)| - 1] == "amount"
  {
    assert Aliases(Amount)[1..][1] == "netpay" && Aliases(Amount)[1..][12] == "amount";
    assert Aliases(Name)[1..][3] == "accountholdername";
  }

  // --- Cells as text --------------------------------------------------------------------------------

  /** Fourteen is the same text whether the sheet stores 14 or 14.0. */
  lemma WholeFloatReadsAsInteger(n: int, repr: string)
    ensures CellText(Floating(n as real, repr)) == CellText(Whole(n)) == (if n < 0 then "-" + Digits(-n) else Digits(n))
  {
    var text := IntegerText(n);
    assert (n as real).Floor == n;
    assert !IsSpace(text[0]) && IsDigit(text[|text| - 1]);
    StripPadding("", text, "");
    assert "" + text + "" == text;
  }

  /** Other texts lose the white space around them, and an empty cell is an empty text. */
  lemma CellTextIsTrimmed(lead: string, s: string, trail: string)
    requires AllSpaces(lead) && AllSpaces(trail) && TightEnds(s)
    ensures CellText(Text(lead + s + trail)) == s
    ensures CellText(Blank) == "" && CellText(Text(lead)) == ""
    ensures forall flag :: CellText(Flag(flag, lead + s + trail)) == lead + s + trail
  {
    StripPadding(lead, s, trail);
    StripLeftEmptyIff(lead);
  }

  /** An e-mail address is anything with an at sign, without the white space around it and in small letters. */
  lemma EmailIs(lead: string, s: string, trail: string)
    requires AllSpaces(lead) && AllSpaces(trail) && TightEnds(s)
    ensures '@' !in s ==> NormalizeEmail(lead + s + trail) == None
    ensures '@' in s ==> NormalizeEmail(lead + s + trail) == Some(Lower(s))
    ensures |Lower(s)| == |s|
    ensures forall i :: 0 <= i < |s| ==> Lower(s)[i] == if 'A' <= s[i] <= 'Z' then s[i] + ' ' else s[i]
  {
    StripPadding(lead, s, trail);
    LowerAt(s);
    assert '@' in lead + s + trail <==> '@' in s;
  }

  /** A text is cut to its first 256 characters, and one that is not mapped or not there is empty. */
  lemma TextAtIs(cells: seq<Cell>, mapping: Mapping, field: Field)
    ensures var text := TextAt(cells, mapping, field);
      if field in mapping && mapping[field] < |cells| then
        var whole := CellText(cells[mapping[field]]);
        text <= whole && |text| == if |whole| <= 256 then |whole| else 256
      else text == ""
  {
  }

  // --- Lost digits ----------------------------------------------------------------------------------

  function PowerOfTen(k: nat): (p: nat)
    ensures p >= 1
  {
    if k == 0 then 1 else 10 * PowerOfTen(k - 1)
  }

  lemma {:induction false} DigitCount(n: nat, k: nat)
    ensures |Digits(n)| > k + 1 <==> n >= PowerOfTen(k + 1)
  {
    if k > 0 {
      if n >= 10 {
        DigitCount(n / 10, k - 1);
      } else {
        assert PowerOfTen(k + 1) >= 10;
      }
    }
  }

  /** Digits are lost exactly by whole floats of sixteen digits or more in the account column. */
  lemma LostDigitsIff(cells: seq<Cell>, mapping: Mapping)
    ensures LostDigits(cells, mapping) <==>
      && AccountNumber in mapping && mapping[AccountNumber] < |cells|
      && var cell := cells[mapping[AccountNumber]];
         cell.Floating? && cell.value == cell.value.Floor as real
         && (cell.value >= 1_000_000_000_000_000.0 || cell.value <= -1_000_000_000_000_000.0)
  {
    assert PowerOfTen(5) == 100_000;
    assert PowerOfTen(10) == 10_000_000_000;
    assert PowerOfTen(15) == 1_000_000_000_000_000;
    if AccountNumber in mapping && mapping[AccountNumber] < |cells| && cells[mapping[AccountNumber]].Floating? {
      var whole := cells[mapping[AccountNumber]].value.Floor;
      DigitCount(if whole < 0 then -whole else whole, 14);
    }
  }
}
