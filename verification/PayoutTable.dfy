/** Finding the header of a payout sheet and reading the payment rows under it. */
module PayoutTable {
  import opened Wrappers
  import opened PayoutAmount

  const MAX_PAYOUT_ROWS := 5000
  const MAX_SCANNED_ROWS := 2 * MAX_PAYOUT_ROWS
  const HEADER_SCAN_ROWS := 15
  const MAX_COLUMNS := 200
  const MAX_TEXT := 256
  const EXCEL_NUMBER_DIGITS := 15

  datatype Field = EmployeeNumber | AccountNumber | Email | Name | Amount | Reference | BankStatus

  const FIELDS := [EmployeeNumber, AccountNumber, Email, Name, Amount, Reference, BankStatus]

  type Mapping = map<Field, nat>

  function Aliases(field: Field): seq<string> {
    match field
    case EmployeeNumber => [
      "employeeno", "employeenumber", "empno", "employeeid", "empid", "employeecode", "empcode", "staffid", "staffno"]
    case AccountNumber => [
      "accountnumber", "accountno", "bankaccountnumber", "bankaccountno", "beneficiaryaccountnumber",
      "beneficiaryaccountno", "creditaccountnumber", "acno", "acctno", "account"]
    case Email => ["workemail", "email", "emailid", "emailaddress", "officialemail", "beneficiaryemail"]
    case Name => ["employeename", "name", "payeename", "beneficiaryname", "accountholdername"]
    case Amount => [
      "totalpay", "netmonthlytotalpay", "netpay", "amountpaid", "paidamount", "payoutamount", "transactionamount",
      "txnamount", "creditamount", "netamount", "netsalary", "netpayable", "amountinr", "amount"]
    case Reference => [
      "utr", "utrno", "utrnumber", "bankreference", "referenceno", "referencenumber", "reference",
      "transactionid", "transactionreference", "paymentreference", "txnref"]
    case BankStatus => ["paymentstatus", "transactionstatus", "txnstatus", "status"]
  }

  const FAILED_STATUSES := {
    "failed", "failure", "rejected", "returned", "reversed", "cancelled", "canceled", "bounced"
  }

  // --- Cells as text --------------------------------------------------------------------------------

  function LowerChar(c: char): char {
    if 'A' <= c <= 'Z' then (c as int + 32) as char else c
  }

  function UpperChar(c: char): char {
    if 'a' <= c <= 'z' then (c as int - 32) as char else c
  }

  function Lower(s: string): string {
    if s == "" then "" else [LowerChar(s[0])] + Lower(s[1..])
  }

  function Upper(s: string): string {
    if s == "" then "" else [UpperChar(s[0])] + Upper(s[1..])
  }

  predicate IsAsciiLetterOrDigit(c: char) { 'a' <= c <= 'z' || 'A' <= c <= 'Z' || IsDigit(c) }

  function KeepLettersAndDigits(s: string): string {
    if s == "" then "" else (if IsAsciiLetterOrDigit(s[0]) then [s[0]] else "") + KeepLettersAndDigits(s[1..])
  }

  function IntegerText(n: int): string {
    if n < 0 then "-" + Digits(-n) else Digits(n)
  }

  /** What Python prints for a cell. */
  function Repr(cell: Cell): string {
    match cell
    case Blank => "None"
    case Flag(_, repr) => repr
    case Whole(number) => IntegerText(number)
    case Floating(_, repr) => repr
    case Exact(_, repr) => repr
    case NotFinite(repr) => repr
    case Text(text) => text
    case Other(repr) => repr
  }

  predicate IsWholeFloat(cell: Cell) { cell.Floating? && cell.value == cell.value.Floor as real }

  function CellText(cell: Cell): string {
    if cell.Blank? then ""
    else if cell.Flag? then cell.repr
    else if IsWholeFloat(cell) then IntegerText(cell.value.Floor)
    else Strip(Repr(cell))
  }

  function NormalizeHeader(cell: Cell): string {
    if cell.Blank? then "" else KeepLettersAndDigits(Lower(Repr(cell)))
  }

  function Prefix(s: string, n: nat): string { if |s| <= n then s else s[..n] }

  function TextAt(cells: seq<Cell>, mapping: Mapping, field: Field): string {
    if field in mapping && mapping[field] < |cells| then Prefix(CellText(cells[mapping[field]]), MAX_TEXT) else ""
  }

  function NonEmpty(s: string): Option<string> { if s == "" then None else Some(s) }

  function DropLeadingZeros(s: string): string {
    if s != "" && s[0] == '0' then DropLeadingZeros(s[1..]) else s
  }

  function NormalizeAccountNumber(s: string): Option<string> {
    NonEmpty(DropLeadingZeros(Upper(KeepLettersAndDigits(s))))
  }

  function NormalizeEmail(s: string): Option<string> {
    if '@' in s then Some(Lower(Strip(s))) else None
  }

  predicate Contains(s: string, part: string) {
    part <= s || (s != "" && Contains(s[1..], part))
  }

  predicate IsEither(c: char, lower: char, upper: char) { c == lower || c == upper }

  /** The word "total", in letters of either case, starts at this position. */
  predicate SpellsTotal(s: string, i: int) {
    && 0 <= i <= |s| - 5
    && IsEither(s[i], 't', 'T') && IsEither(s[i + 1], 'o', 'O') && IsEither(s[i + 2], 't', 'T')
    && IsEither(s[i + 3], 'a', 'A') && IsEither(s[i + 4], 'l', 'L')
  }

  lemma {:induction false} LowerAt(s: string)
    ensures |Lower(s)| == |s|
    ensures forall i :: 0 <= i < |s| ==> Lower(s)[i] == if 'A' <= s[i] <= 'Z' then s[i] + ' ' else s[i]
  {
    if s != "" {
      LowerAt(s[1..]);
    }
  }

  predicate HasAt(s: string, part: string, i: int) { 0 <= i <= |s| - |part| && s[i..i + |part|] == part }

  lemma PrefixIsAtStart(s: string, part: string)
    ensures HasAt(s, part, 0) <==> part <= s
  {
    assert |part| <= |s| ==> s[0..|part|] == s[..|part|];
  }

  lemma {:induction false} ContainsIff(s: string, part: string)
    ensures Contains(s, part) <==> exists i :: HasAt(s, part, i)
  {
    PrefixIsAtStart(s, part);
    if part <= s {
      assert HasAt(s, part, 0);
    } else if s == "" {
      assert forall i :: !HasAt(s, part, i);
    } else {
      var rest := s[1..];
      ContainsIff(rest, part);
      if Contains(rest, part) {
        var i :| HasAt(rest, part, i);
        assert HasAt(s, part, i + 1);
      }
      forall i | HasAt(s, part, i)
        ensures Contains(rest, part)
      {
        assert HasAt(rest, part, i - 1);
      }
    }
  }

  lemma SpellsTotalIff(s: string, i: int)
    ensures HasAt(Lower(s), "total", i) <==> SpellsTotal(s, i)
  {
    hide Lower;
    LowerAt(s);
    if 0 <= i <= |s| - 5 {
      var word := Lower(s)[i..i + 5];
      assert word == [Lower(s)[i], Lower(s)[i + 1], Lower(s)[i + 2], Lower(s)[i + 3], Lower(s)[i + 4]];
    }
  }

  /** A label counts as the sheet's own sum exactly when it has that word in it, as "Grand Total" does. */
  lemma TotalLabelIff(s: string)
    ensures IsTotalLabel(s) <==> exists i :: SpellsTotal(s, i)
  {
    hide Lower, Contains, SpellsTotal, HasAt;
    ContainsIff(Lower(s), "total");
    forall i
      ensures HasAt(Lower(s), "total", i) <==> SpellsTotal(s, i)
    {
      SpellsTotalIff(s, i);
    }
  }

  predicate IsTotalLabel(s: string) { Contains(Lower(s), "total") }

  predicate IsSkippable(employeeNumber: Option<string>, name: string) {
    match employeeNumber
    case Some(number) => IsTotalLabel(number)
    case None => name == "" || IsTotalLabel(name)
  }

  /** An account number stored as a float with more digits than Excel keeps. */
  predicate LostDigits(cells: seq<Cell>, mapping: Mapping) {
    AccountNumber in mapping && mapping[AccountNumber] < |cells| &&
    var cell := cells[mapping[AccountNumber]];
    IsWholeFloat(cell) &&
    var whole := cell.value.Floor;
    |Digits(if whole < 0 then -whole else whole)| > EXCEL_NUMBER_DIGITS
  }

  // --- The header -------------------------------------------------------------------------------------

  /** The first of the columns read whose heading is this one. */
  function ColumnOf(cells: seq<Cell>, heading: string, n: nat): Option<nat>
    requires n <= |cells|
  {
    if n == 0 then None
    else match ColumnOf(cells, heading, n - 1)
      case Some(column) => Some(column)
      case None => if NormalizeHeader(cells[n - 1]) == heading then Some(n - 1) else None
  }

  function ColumnsRead(cells: seq<Cell>): (n: nat)
    ensures n <= |cells| && n <= 200 && (n == |cells| || n == 200)
  {
    if |cells| <= MAX_COLUMNS then |cells| else MAX_COLUMNS
  }

  /** The column of the first alias that any column carries. */
  function FirstAliasColumn(cells: seq<Cell>, aliases: seq<string>): Option<nat> {
    if aliases == [] then None
    else match ColumnOf(cells, aliases[0], ColumnsRead(cells))
      case Some(column) => Some(column)
      case None => FirstAliasColumn(cells, aliases[1..])
  }

  function FieldColumns(cells: seq<Cell>): Mapping {
    map field | field in FIELDS && FirstAliasColumn(cells, Aliases(field)).Some?
      :: FirstAliasColumn(cells, Aliases(field)).value
  }

  predicate IsUsable(mapping: Mapping) {
    Amount in mapping && (EmployeeNumber in mapping || AccountNumber in mapping || Email in mapping)
  }

  function HeaderMap(cells: seq<Cell>): Option<Mapping> {
    if IsUsable(FieldColumns(cells)) then Some(FieldColumns(cells)) else None
  }

  predicate HeadsNone(cells: seq<Cell>, heading: string, n: nat)
    requires n <= |cells|
  {
    forall j :: 0 <= j < n ==> NormalizeHeader(cells[j]) != heading
  }

  lemma {:induction false} ColumnOfIsFirst(cells: seq<Cell>, heading: string, n: nat)
    requires n <= |cells|
    ensures match ColumnOf(cells, heading, n)
      case Some(column) => column < n && NormalizeHeader(cells[column]) == heading && HeadsNone(cells, heading, column)
      case None => HeadsNone(cells, heading, n)
  {
    hide NormalizeHeader;
    if n > 0 {
      ColumnOfIsFirst(cells, heading, n - 1);
    }
  }

  /** The column is the first to carry alias `a`, and no alias listed before that one heads any column read. */
  predicate Wins(cells: seq<Cell>, aliases: seq<string>, a: int, column: nat) {
    && 0 <= a < |aliases| && column < ColumnsRead(cells)
    && NormalizeHeader(cells[column]) == aliases[a] && HeadsNone(cells, aliases[a], column)
    && forall b :: 0 <= b < a ==> HeadsNone(cells, aliases[b], ColumnsRead(cells))
  }

  /** A field's column is the winner among its aliases; without one, none of them heads a column read. */
  lemma {:induction false} FirstAliasWins(cells: seq<Cell>, aliases: seq<string>)
    ensures match FirstAliasColumn(cells, aliases)
      case Some(column) => exists a :: Wins(cells, aliases, a, column)
      case None => forall b :: 0 <= b < |aliases| ==> HeadsNone(cells, aliases[b], ColumnsRead(cells))
  {
    hide NormalizeHeader;
    if aliases != [] {
      var rest := aliases[1..];
      ColumnOfIsFirst(cells, aliases[0], ColumnsRead(cells));
      FirstAliasWins(cells, rest);
      match ColumnOf(cells, aliases[0], ColumnsRead(cells))
      case Some(column) =>
        assert Wins(cells, aliases, 0, column);
        assert FirstAliasColumn(cells, aliases) == Some(column);
      case None =>
        assert forall b :: 1 <= b < |aliases| ==> aliases[b] == rest[b - 1];
        match FirstAliasColumn(cells, rest)
        case Some(column) =>
          var a :| Wins(cells, rest, a, column);
          assert Wins(cells, aliases, a + 1, column);
          assert FirstAliasColumn(cells, aliases) == Some(column);
        case None =>
    }
  }

  /** Some column read carries one of the field's aliases. */
  ghost predicate IsHeaded(cells: seq<Cell>, field: Field) {
    exists b, j ::
      0 <= b < |Aliases(field)| && 0 <= j < ColumnsRead(cells) && NormalizeHeader(cells[j]) == Aliases(field)[b]
  }

  lemma ColumnIffHeaded(cells: seq<Cell>, field: Field)
    ensures FirstAliasColumn(cells, Aliases(field)).Some? <==> IsHeaded(cells, field)
  {
    hide NormalizeHeader, Aliases;
    FirstAliasWins(cells, Aliases(field));
    match FirstAliasColumn(cells, Aliases(field))
    case Some(column) =>
      var a :| Wins(cells, Aliases(field), a, column);
      assert NormalizeHeader(cells[column]) == Aliases(field)[a];
    case None =>
      forall b, j | 0 <= b < |Aliases(field)| && 0 <= j < ColumnsRead(cells)
        ensures NormalizeHeader(cells[j]) != Aliases(field)[b]
      {
        assert HeadsNone(cells, Aliases(field)[b], ColumnsRead(cells));
      }
  }

  /** A row is a header exactly when it has a column for the amount and one for the number, the account or the
      address; then it maps exactly the fields it has a column for. */
  lemma HeaderIff(cells: seq<Cell>)
    ensures HeaderMap(cells).Some? <==>
      IsHeaded(cells, Amount)
      && (IsHeaded(cells, EmployeeNumber) || IsHeaded(cells, AccountNumber) || IsHeaded(cells, Email))
    ensures HeaderMap(cells).Some? ==>
      forall field :: field in HeaderMap(cells).value <==> IsHeaded(cells, field)
  {
    hide Aliases, IsHeaded, FirstAliasColumn;
    forall field: Field
      ensures field in FieldColumns(cells) <==> IsHeaded(cells, field)
    {
      ColumnIffHeaded(cells, field);
      FieldsAreAll(field);
    }
  }

  lemma FieldsAreAll(field: Field)
    ensures field in FIELDS
  {
    assert FIELDS[0] == EmployeeNumber && FIELDS[1] == AccountNumber && FIELDS[2] == Email && FIELDS[3] == Name;
    assert FIELDS[4] == Amount && FIELDS[5] == Reference && FIELDS[6] == BankStatus;
  }

  /** The two dictionaries of the source, filled in its order. */
  method BuildHeaderMap(cells: seq<Cell>) returns (result: Option<Mapping>)
    ensures result == HeaderMap(cells)
  {
    hide Aliases, FirstAliasColumn, ArePositions;
    var positions := FirstPositions(cells);
    var mapping: Mapping := map[];
    for f := 0 to |FIELDS|
      invariant forall field :: field in mapping <==>
        field in FIELDS[..f] && FirstAliasColumn(cells, Aliases(field)).Some?
      invariant forall field :: field in mapping ==> Some(mapping[field]) == FirstAliasColumn(cells, Aliases(field))
    {
      var column := FindAlias(cells, positions, Aliases(FIELDS[f]));
      assert FIELDS[..f + 1] == FIELDS[..f] + [FIELDS[f]];
      if column.Some? {
        mapping := mapping[FIELDS[f] := column.value];
      }
    }
    assert FIELDS[..|FIELDS|] == FIELDS;
    assert mapping == FieldColumns(cells);
    result := if IsUsable(mapping) then Some(mapping) else None;
  }

  /** The dictionary holds, by heading, the first of the columns read so far. */
  ghost predicate ArePositions(cells: seq<Cell>, positions: map<string, nat>, n: nat)
    requires n <= |cells|
  {
    forall heading ::
      ColumnOf(cells, heading, n) == if heading in positions then Some(positions[heading]) else None
  }

  method FirstPositions(cells: seq<Cell>) returns (positions: map<string, nat>)
    ensures ArePositions(cells, positions, ColumnsRead(cells))
  {
    hide NormalizeHeader;
    positions := map[];
    for index := 0 to ColumnsRead(cells)
      invariant ArePositions(cells, positions, index)
    {
      var heading := NormalizeHeader(cells[index]);
      if heading !in positions {
        positions := positions[heading := index];
      }
    }
  }

  method FindAlias(cells: seq<Cell>, positions: map<string, nat>, aliases: seq<string>) returns (column: Option<nat>)
    requires ArePositions(cells, positions, ColumnsRead(cells))
    ensures column == FirstAliasColumn(cells, aliases)
  {
    for a := 0 to |aliases|
      invariant FirstAliasColumn(cells, aliases) == FirstAliasColumn(cells, aliases[a..])
    {
      if aliases[a] in positions {
        return Some(positions[aliases[a]]);
      }
      assert aliases[a..][1..] == aliases[a + 1..];
    }
    return None;
  }

  // --- One row ----------------------------------------------------------------------------------------

  datatype PayoutRow = PayoutRow(
    rowNumber: nat, employeeNumber: Option<string>, accountNumber: Option<string>, email: Option<string>,
    payeeName: Option<string>, amountMinor: int, reference: Option<string>, bankStatus: Option<string>, failed: bool)

  /** Why a file cannot be used. */
  datatype FileError =
    | BadAmount(row: nat, reason: AmountError)
    | MissingAmount(row: nat)
    | UnreadableRow(row: nat)
    | TooManyPaymentRows
    | TooManyScannedRows

  /** A row as the reader delivers it; Garbled is one whose cells it could not convert. */
  datatype RawRow = Cells(cells: seq<Cell>) | Garbled

  function AccountOf(cells: seq<Cell>, mapping: Mapping): Option<string> {
    if LostDigits(cells, mapping) then None else NormalizeAccountNumber(TextAt(cells, mapping, AccountNumber))
  }

  /** A row without account and email that is blank or is the sheet's own total. */
  predicate IsDropped(cells: seq<Cell>, mapping: Mapping) {
    && AccountOf(cells, mapping) == None && NormalizeEmail(TextAt(cells, mapping, Email)) == None
    && IsSkippable(NonEmpty(TextAt(cells, mapping, EmployeeNumber)), TextAt(cells, mapping, Name))
  }

  function AmountCell(cells: seq<Cell>, mapping: Mapping): Cell
    requires Amount in mapping
  {
    if mapping[Amount] < |cells| then cells[mapping[Amount]] else Blank
  }

  predicate IsFailed(cells: seq<Cell>, mapping: Mapping) {
    Lower(TextAt(cells, mapping, BankStatus)) in FAILED_STATUSES
  }

  /** Ok(None) is a dropped row. */
  function ParseRow(cells: seq<Cell>, mapping: Mapping, rowNumber: nat): Result<Option<PayoutRow>, FileError>
    requires Amount in mapping
  {
    if IsDropped(cells, mapping) then Ok(None) else
    var status := TextAt(cells, mapping, BankStatus);
    var failed := status != "" && IsFailed(cells, mapping);
    match ParseAmountMinor(AmountCell(cells, mapping))
    case Err(reason) => Err(BadAmount(rowNumber, reason))
    case Ok(amount) =>
      if amount.None? && !failed then Err(MissingAmount(rowNumber)) else
      Ok(Some(PayoutRow(
        rowNumber, NonEmpty(TextAt(cells, mapping, EmployeeNumber)), AccountOf(cells, mapping),
        NormalizeEmail(TextAt(cells, mapping, Email)), NonEmpty(TextAt(cells, mapping, Name)),
        if amount.Some? then amount.value else 0,
        NonEmpty(Prefix(TextAt(cells, mapping, Reference), 64)), NonEmpty(Prefix(status, 32)), failed)))
  }

  /** A row is left out only if it is blank or a total and names no account and no email; a kept row carries its
      own number, an amount within the cap, a non-zero one only if its cell held one, and never an account with
      lost digits. */
  lemma ParseRowFacts(cells: seq<Cell>, mapping: Mapping, rowNumber: nat)
    requires Amount in mapping
    ensures ParseRow(cells, mapping, rowNumber) == Ok(None) <==> IsDropped(cells, mapping)
    ensures var result := ParseRow(cells, mapping, rowNumber);
      result.Ok? && result.value.Some? ==> var row := result.value.value;
        && row.rowNumber == rowNumber
        && row.employeeNumber == NonEmpty(TextAt(cells, mapping, EmployeeNumber))
        && row.payeeName == NonEmpty(TextAt(cells, mapping, Name))
        && row.accountNumber == AccountOf(cells, mapping)
        && row.email == NormalizeEmail(TextAt(cells, mapping, Email))
        && (row.email.Some? <==> '@' in TextAt(cells, mapping, Email))
        && row.reference == NonEmpty(Prefix(TextAt(cells, mapping, Reference), 64))
        && row.bankStatus == NonEmpty(Prefix(TextAt(cells, mapping, BankStatus), 32))
        && (row.failed <==> Lower(TextAt(cells, mapping, BankStatus)) in {
              "failed", "failure", "rejected", "returned", "reversed", "cancelled", "canceled", "bounced"})
        && -MAX_AMOUNT_MINOR <= row.amountMinor <= MAX_AMOUNT_MINOR
        && (ParseAmountMinor(AmountCell(cells, mapping)) == Ok(Some(row.amountMinor))
            || (row.failed && row.amountMinor == 0 && ParseAmountMinor(AmountCell(cells, mapping)) == Ok(None)))
        && (LostDigits(cells, mapping) ==> row.accountNumber == None)
  {
    ParsedAmountIsCapped(AmountCell(cells, mapping));
  }

  lemma DroppedIff(cells: seq<Cell>, mapping: Mapping, rowNumber: nat)
    requires Amount in mapping
    ensures ParseRow(cells, mapping, rowNumber) == Ok(None) <==> IsDropped(cells, mapping)
  {
  }

  /** Everything a row can come to, in terms of its texts: dropped, refused for its amount, refused without one, or
      kept. The number, if there is one, decides whether it is a total; otherwise the name does. */
  lemma RowOutcomeIff(cells: seq<Cell>, mapping: Mapping, rowNumber: nat)
    requires Amount in mapping
    ensures var result := ParseRow(cells, mapping, rowNumber);
      var number, name := TextAt(cells, mapping, EmployeeNumber), TextAt(cells, mapping, Name);
      var account := NormalizeAccountNumber(TextAt(cells, mapping, AccountNumber));
      var email := NormalizeEmail(TextAt(cells, mapping, Email));
      var amount := ParseAmountMinor(if mapping[Amount] < |cells| then cells[mapping[Amount]] else Blank);
      var dropped := (account == None || LostDigits(cells, mapping)) && email == None
        && if number != "" then IsTotalLabel(number) else name == "" || IsTotalLabel(name);
      && (result == Ok(None) <==> dropped)
      && (forall e :: result == Err(BadAmount(rowNumber, e)) <==> !dropped && amount == Err(e))
      && (result == Err(MissingAmount(rowNumber)) <==> !dropped && amount == Ok(None) && !IsFailed(cells, mapping))
      && (result.Ok? && result.value.Some? <==>
            !dropped && amount.Ok? && (amount.value == None ==> IsFailed(cells, mapping)))
      && (result.Ok? && result.value.Some? && !LostDigits(cells, mapping) ==>
            result.value.value.accountNumber == account)
  {
    assert TextAt(cells, mapping, BankStatus) == "" ==> !IsFailed(cells, mapping);
  }

  // --- The scan ---------------------------------------------------------------------------------------

  datatype Progress =
    | Searching
    | NoHeader
    | Reading(header: nat, mapping: Mapping, kept: seq<PayoutRow>, lost: seq<nat>)
    | Failed(error: FileError)

  /** One row of the scan; rows are numbered from 1. */
  function ScanRow(p: Progress, rowNumber: nat, raw: RawRow): Progress {
    if p.NoHeader? || p.Failed? then p
    else if raw.Garbled? then Failed(UnreadableRow(rowNumber))
    else if p.Searching? then
      if rowNumber > HEADER_SCAN_ROWS then NoHeader
      else match HeaderMap(raw.cells)
        case Some(mapping) => Reading(rowNumber, mapping, [], [])
        case None => p
    else if rowNumber - p.header > MAX_SCANNED_ROWS then Failed(TooManyScannedRows)
    else if Amount !in p.mapping then p
    else match ParseRow(raw.cells, p.mapping, rowNumber)
      case Err(error) => Failed(error)
      case Ok(None) => p
      case Ok(Some(row)) =>
        if |p.kept| >= MAX_PAYOUT_ROWS then Failed(TooManyPaymentRows)
        else p.(
          kept := p.kept + [row],
          lost := if LostDigits(raw.cells, p.mapping) then p.lost + [rowNumber] else p.lost)
  }

  function Scan(rows: seq<RawRow>, n: nat): Progress
    requires n <= |rows|
  {
    if n == 0 then Searching else ScanRow(Scan(rows, n - 1), n, rows[n - 1])
  }

  class Table {
    const mapping: Mapping
    var rows: seq<PayoutRow>
    var lostDigitRows: seq<nat>

    constructor (mapping: Mapping)
      ensures this.mapping == mapping && rows == [] && lostDigitRows == []
    {
      this.mapping, this.rows, this.lostDigitRows := mapping, [], [];
    }

    /** Adds one row under the header, unless it is dropped or cannot be used. */
    method TakeRow(cells: seq<Cell>, rowNumber: nat) returns (error: Option<FileError>)
      requires Amount in mapping
      modifies this
      ensures var parsed := ParseRow(cells, mapping, rowNumber);
        var kept := parsed.Ok? && parsed.value.Some?;
        var full := |old(rows)| >= MAX_PAYOUT_ROWS;
        && error == (if parsed.Err? then Some(parsed.error)
                     else if kept && full then Some(TooManyPaymentRows) else None)
        && rows == (if kept && !full then old(rows) + [parsed.value.value] else old(rows))
        && lostDigitRows == (if kept && !full && LostDigits(cells, mapping) then old(lostDigitRows) + [rowNumber]
                             else old(lostDigitRows))
    {
      var parsed := ParseRow(cells, mapping, rowNumber);
      match parsed
      case Err(e) => return Some(e);
      case Ok(None) => return None;
      case Ok(Some(row)) =>
        if |rows| >= MAX_PAYOUT_ROWS {
          return Some(TooManyPaymentRows);
        }
        if LostDigits(cells, mapping) {
          lostDigitRows := lostDigitRows + [rowNumber];
        }
        rows := rows + [row];
        return None;
    }
  }

  datatype Parsed =
    | NoTable
    | Found(header: nat, mapping: Mapping, kept: seq<PayoutRow>, lost: seq<nat>)
    | Refused(error: FileError)

  function Outcome(p: Progress): Parsed {
    match p
    case Searching => NoTable
    case NoHeader => NoTable
    case Reading(header, mapping, kept, lost) => Found(header, mapping, kept, lost)
    case Failed(error) => Refused(error)
  }

  lemma {:induction false} StoppedScanStays(rows: seq<RawRow>, n: nat, m: nat)
    requires n <= m <= |rows| && (Scan(rows, n).NoHeader? || Scan(rows, n).Failed?)
    ensures Scan(rows, m) == Scan(rows, n)
  {
    hide HeaderMap, ParseRow, LostDigits;
    if n < m {
      StoppedScanStays(rows, n, m - 1);
    }
  }

  lemma ScanSearches(rows: seq<RawRow>, n: nat)
    requires n < |rows| && Scan(rows, n) == Searching
    ensures Scan(rows, n + 1) ==
      if rows[n].Garbled? then Failed(UnreadableRow(n + 1))
      else if n + 1 > HEADER_SCAN_ROWS then NoHeader
      else if HeaderMap(rows[n].cells).Some? then Reading(n + 1, HeaderMap(rows[n].cells).value, [], [])
      else Searching
  {
  }

  lemma ScanReads(rows: seq<RawRow>, n: nat, header: nat, mapping: Mapping, kept: seq<PayoutRow>, lost: seq<nat>)
    requires n < |rows| && Scan(rows, n) == Reading(header, mapping, kept, lost) && Amount in mapping
    ensures rows[n].Garbled? ==> Scan(rows, n + 1) == Failed(UnreadableRow(n + 1))
    ensures rows[n].Cells? && n + 1 - header > MAX_SCANNED_ROWS ==> Scan(rows, n + 1) == Failed(TooManyScannedRows)
    ensures rows[n].Cells? && n + 1 - header <= MAX_SCANNED_ROWS ==>
      var parsed := ParseRow(rows[n].cells, mapping, n + 1);
      var isPayment := parsed.Ok? && parsed.value.Some?;
      Scan(rows, n + 1) ==
        if parsed.Err? then Failed(parsed.error)
        else if isPayment && |kept| >= MAX_PAYOUT_ROWS then Failed(TooManyPaymentRows)
        else Reading(header, mapping,
          if isPayment then kept + [parsed.value.value] else kept,
          if isPayment && LostDigits(rows[n].cells, mapping) then lost + [n + 1] else lost)
  {
  }

  lemma HeaderIsUsable(cells: seq<Cell>)
    ensures HeaderMap(cells).Some? ==> IsUsable(HeaderMap(cells).value)
  {
  }

  /** One row under the header: refused past the cap, otherwise taken by the table. */
  method ReadUnderHeader(table: Table, rows: seq<RawRow>, n: nat, header: nat) returns (error: Option<FileError>)
    requires n < |rows| && rows[n].Cells? && HasRead(table, rows, n, header)
    modifies table
    ensures match error
      case Some(e) => Outcome(Scan(rows, |rows|)) == Refused(e)
      case None => HasRead(table, rows, n + 1, header)
  {
    hide Scan, ScanRow, HeaderMap, ParseRow, LostDigits;
    var rowNumber := n + 1;
    ScanReads(rows, n, header, table.mapping, table.rows, table.lostDigitRows);
    if rowNumber - header > MAX_SCANNED_ROWS {
      error := Some(TooManyScannedRows);
    } else {
      error := table.TakeRow(rows[n].cells, rowNumber);
    }
    if error.Some? {
      StoppedScanStays(rows, rowNumber, |rows|);
    }
  }

  /** The table as it stands is what the scan of the first `n` rows has read. */
  ghost predicate HasRead(table: Table, rows: seq<RawRow>, n: nat, header: nat)
    requires n <= |rows|
    reads table
  {
    && Amount in table.mapping
    && Scan(rows, n) == Reading(header, table.mapping, table.rows, table.lostDigitRows)
  }

  /** Opens a table if this row is a usable header. */
  method TryHeader(rows: seq<RawRow>, n: nat) returns (found: Table?)
    requires n < |rows| && rows[n].Cells? && n < HEADER_SCAN_ROWS && Scan(rows, n) == Searching
    ensures found == null ==> Scan(rows, n + 1) == Searching
    ensures found != null ==> fresh(found) && HasRead(found, rows, n + 1, n + 1)
  {
    hide Scan, ScanRow, HeaderMap, ParseRow, LostDigits;
    ScanSearches(rows, n);
    found := null;
    var mapping := BuildHeaderMap(rows[n].cells);
    HeaderIsUsable(rows[n].cells);
    if mapping.Some? {
      found := new Table(mapping.value);
    }
  }

  lemma NothingScanned(rows: seq<RawRow>)
    ensures Scan(rows, 0) == Searching && Outcome(Searching) == NoTable
  {
  }

  lemma GarbledRowStopsScan(rows: seq<RawRow>, n: nat)
    requires n < |rows| && rows[n].Garbled? && (Scan(rows, n).Searching? || Scan(rows, n).Reading?)
    ensures Outcome(Scan(rows, |rows|)) == Refused(UnreadableRow(n + 1))
  {
    hide HeaderMap, ParseRow, LostDigits;
    StoppedScanStays(rows, n + 1, |rows|);
  }

  lemma LateHeaderStopsScan(rows: seq<RawRow>, n: nat)
    requires HEADER_SCAN_ROWS <= n < |rows| && rows[n].Cells? && Scan(rows, n) == Searching
    ensures Outcome(Scan(rows, |rows|)) == NoTable
  {
    hide Scan, ScanRow, HeaderMap, ParseRow, LostDigits;
    ScanSearches(rows, n);
    StoppedScanStays(rows, n + 1, |rows|);
  }

  /** The scan of the source: it stops at the first row that settles the outcome. */
  method ParseTable(rows: seq<RawRow>) returns (result: Parsed)
    ensures result == Outcome(Scan(rows, |rows|))
  {
    hide *;
    NothingScanned(rows);
    var found: Table? := null;
    var header := 0;
    for n := 0 to |rows|
      invariant found == null ==> Scan(rows, n) == Searching
      invariant found != null ==> fresh(found) && HasRead(found, rows, n, header)
    {
      var rowNumber := n + 1;
      if rows[n].Garbled? {
        if found != null {
          ReadSoFar(found, rows, n, header);
        }
        GarbledRowStopsScan(rows, n);
        return Refused(UnreadableRow(rowNumber));
      }
      if found == null {
        if rowNumber > HEADER_SCAN_ROWS {
          LateHeaderStopsScan(rows, n);
          return NoTable;
        }
        found := TryHeader(rows, n);
        header := rowNumber;
      } else {
        var error := ReadUnderHeader(found, rows, n, header);
        if error.Some? {
          return Refused(error.value);
        }
      }
    }
    if found == null {
      return NoTable;
    }
    ReadSoFar(found, rows, |rows|, header);
    result := Found(header, found.mapping, found.rows, found.lostDigitRows);
  }

  lemma ReadSoFar(table: Table, rows: seq<RawRow>, n: nat, header: nat)
    requires n <= |rows| && HasRead(table, rows, n, header)
    ensures Scan(rows, n).Reading?
    ensures Outcome(Scan(rows, n)) == Found(header, table.mapping, table.rows, table.lostDigitRows)
  {
  }

  // --- What a successful scan means -------------------------------------------------------------------

  /** The first row with a usable header, among those searched. */
  predicate HeaderIsAt(rows: seq<RawRow>, header: nat, mapping: Mapping) {
    && 1 <= header <= |rows| && header <= 15
    && (forall j :: 0 <= j < header ==> rows[j].Cells?)
    && (forall j :: 0 <= j < header - 1 ==> HeaderMap(rows[j].cells) == None)
    && HeaderMap(rows[header - 1].cells) == Some(mapping)
  }

  /** Row `j` (counted from zero) below the header can be used: it is read, and it is dropped or parses. */
  predicate IsReadable(rows: seq<RawRow>, mapping: Mapping, j: nat)
    requires j < |rows| && Amount in mapping
  {
    rows[j].Cells? && ParseRow(rows[j].cells, mapping, j + 1).Ok?
  }

  /** The rows from the header to the `n`-th that are not dropped, in order. */
  function Payments(rows: seq<RawRow>, mapping: Mapping, header: nat, n: nat): seq<PayoutRow>
    requires header <= n <= |rows| && Amount in mapping
    requires forall j :: header <= j < n ==> IsReadable(rows, mapping, j)
  {
    if n == header then [] else
    var earlier := Payments(rows, mapping, header, n - 1);
    assert IsReadable(rows, mapping, n - 1);
    match ParseRow(rows[n - 1].cells, mapping, n).value
    case Some(row) => earlier + [row]
    case None => earlier
  }

  /** The numbers of those rows whose account number lost digits. */
  function LostRows(rows: seq<RawRow>, mapping: Mapping, header: nat, n: nat): seq<nat>
    requires header <= n <= |rows| && Amount in mapping
    requires forall j :: header <= j < n ==> IsReadable(rows, mapping, j)
  {
    if n == header then [] else
    var earlier := LostRows(rows, mapping, header, n - 1);
    assert IsReadable(rows, mapping, n - 1);
    if !IsDropped(rows[n - 1].cells, mapping) && LostDigits(rows[n - 1].cells, mapping) then earlier + [n] else earlier
  }

  ghost predicate Succeeds(rows: seq<RawRow>, n: nat, header: nat, mapping: Mapping)
    requires n <= |rows|
  {
    && HeaderIsAt(rows, header, mapping) && Amount in mapping && header <= n <= header + 10_000
    && (forall j :: header <= j < n ==> IsReadable(rows, mapping, j))
    && |Payments(rows, mapping, header, n)| <= 5_000
  }

  lemma {:induction false} SearchingMeans(rows: seq<RawRow>, n: nat)
    requires n <= |rows|
    ensures Scan(rows, n) == Searching <==>
      n <= HEADER_SCAN_ROWS && forall j :: 0 <= j < n ==> rows[j].Cells? && HeaderMap(rows[j].cells) == None
  {
    hide HeaderMap, ParseRow, LostDigits;
    if n > 0 {
      SearchingMeans(rows, n - 1);
    }
  }

  lemma SucceedsAtHeader(rows: seq<RawRow>, n: nat, mapping: Mapping)
    requires 0 < n <= |rows|
    ensures !Succeeds(rows, n - 1, n, mapping)
    ensures Succeeds(rows, n, n, mapping) ==> Payments(rows, mapping, n, n) == [] && LostRows(rows, mapping, n, n) == []
    ensures Succeeds(rows, n, n, mapping) <==>
      n <= HEADER_SCAN_ROWS && Scan(rows, n - 1) == Searching && rows[n - 1].Cells?
        && HeaderMap(rows[n - 1].cells) == Some(mapping)
  {
    hide HeaderMap, ParseRow, LostDigits;
    SearchingMeans(rows, n - 1);
    if rows[n - 1].Cells? {
      HeaderIsUsable(rows[n - 1].cells);
    }
  }

  lemma SucceedsBelowHeader(rows: seq<RawRow>, n: nat, header: nat, mapping: Mapping)
    requires 0 < n <= |rows| && header != n
    ensures Succeeds(rows, n - 1, header, mapping) ==>
      && Amount in mapping && header < n && |Payments(rows, mapping, header, n - 1)| <= MAX_PAYOUT_ROWS
      && forall j :: header <= j < n - 1 ==> IsReadable(rows, mapping, j)
    ensures Succeeds(rows, n, header, mapping) ==>
      Succeeds(rows, n - 1, header, mapping) && n - header <= MAX_SCANNED_ROWS && IsReadable(rows, mapping, n - 1)
  {
  }

  lemma SucceedsOneRowMore(rows: seq<RawRow>, n: nat, header: nat, mapping: Mapping)
    requires header < n <= |rows| && Amount in mapping && Succeeds(rows, n - 1, header, mapping)
    requires forall j :: header <= j < n ==> IsReadable(rows, mapping, j)
    ensures Succeeds(rows, n, header, mapping) <==>
      n - header <= MAX_SCANNED_ROWS && |Payments(rows, mapping, header, n)| <= MAX_PAYOUT_ROWS
  {
    hide HeaderIsAt, IsReadable, Payments;
  }

  lemma OneRowMore(rows: seq<RawRow>, n: nat, header: nat, mapping: Mapping)
    requires 0 < n <= |rows| && header != n && Succeeds(rows, n - 1, header, mapping)
      && IsReadable(rows, mapping, n - 1)
    ensures var (cells, parsed) := (rows[n - 1].cells, ParseRow(rows[n - 1].cells, mapping, n).value);
      && Payments(rows, mapping, header, n)
        == Payments(rows, mapping, header, n - 1) + (if parsed.Some? then [parsed.value] else [])
      && LostRows(rows, mapping, header, n)
         == LostRows(rows, mapping, header, n - 1)
            + (if !IsDropped(cells, mapping) && LostDigits(cells, mapping) then [n] else [])
  {
    hide HeaderMap, ParseRow, LostDigits, HeaderIsAt, IsDropped;
  }

  /** The scan finds a table exactly when one of the first fifteen rows is a usable header, no row is
      garbled, every row under the header is dropped or parses, and neither cap is exceeded. Then the
      payments are those rows that are not dropped, each once and in order. */
  lemma {:induction false} ScanFindsTableIff(rows: seq<RawRow>, n: nat, header: nat, mapping: Mapping)
    requires n <= |rows|
    ensures Succeeds(rows, n, header, mapping) <==>
      Scan(rows, n).Reading? && Scan(rows, n).header == header && Scan(rows, n).mapping == mapping
    ensures Succeeds(rows, n, header, mapping) ==>
      Scan(rows, n) == Reading(header, mapping, Payments(rows, mapping, header, n), LostRows(rows, mapping, header, n))
  {
    hide HeaderMap, ParseRow, LostDigits, IsDropped, Succeeds, Payments, LostRows, HeaderIsAt;
    if n == 0 {
      NothingSucceedsAtOnce(rows, header, mapping);
    } else {
      ScanFindsTableIff(rows, n - 1, header, mapping);
      SucceedsAtHeader(rows, n, mapping);
      if header != n {
        SucceedsBelowHeader(rows, n, header, mapping);
        if Succeeds(rows, n - 1, header, mapping) && IsReadable(rows, mapping, n - 1) {
          SucceedsOneRowMore(rows, n, header, mapping);
          OneRowMore(rows, n, header, mapping);
        }
      }
      if rows[n - 1].Cells? && Amount in mapping {
        DroppedIff(rows[n - 1].cells, mapping, n);
      }
    }
  }

  lemma NothingSucceedsAtOnce(rows: seq<RawRow>, header: nat, mapping: Mapping)
    ensures !Succeeds(rows, 0, header, mapping)
  {
  }

  predicate HasRow(kept: seq<PayoutRow>, rowNumber: nat) {
    exists k :: 0 <= k < |kept| && kept[k].rowNumber == rowNumber
  }

  /** The payment was read off the row whose number it carries. */
  predicate IsReadOff(rows: seq<RawRow>, mapping: Mapping, header: nat, n: nat, p: PayoutRow)
    requires n <= |rows| && Amount in mapping
  {
    header < p.rowNumber <= n && rows[p.rowNumber - 1].Cells?
      && ParseRow(rows[p.rowNumber - 1].cells, mapping, p.rowNumber) == Ok(Some(p))
  }

  predicate AllReadOff(rows: seq<RawRow>, mapping: Mapping, header: nat, n: nat, kept: seq<PayoutRow>)
    requires n <= |rows| && Amount in mapping
  {
    forall k :: 0 <= k < |kept| ==> IsReadOff(rows, mapping, header, n, kept[k])
  }

  predicate Increasing(kept: seq<PayoutRow>) {
    forall k, l :: 0 <= k < l < |kept| ==> kept[k].rowNumber < kept[l].rowNumber
  }

  predicate Drops(rows: seq<RawRow>, mapping: Mapping, j: nat)
    requires j < |rows|
  {
    rows[j].Cells? && IsDropped(rows[j].cells, mapping)
  }

  predicate Loses(rows: seq<RawRow>, mapping: Mapping, j: nat)
    requires j < |rows|
  {
    rows[j].Cells? && LostDigits(rows[j].cells, mapping)
  }

  /** The payments were read off rows under the header, and keep their numbers in strictly increasing order. */
  lemma {:induction false} PaymentsKeepRowNumbers(rows: seq<RawRow>, mapping: Mapping, header: nat, n: nat)
    requires header <= n <= |rows| && Amount in mapping
    requires forall j :: header <= j < n ==> IsReadable(rows, mapping, j)
    ensures AllReadOff(rows, mapping, header, n, Payments(rows, mapping, header, n))
    ensures Increasing(Payments(rows, mapping, header, n))
  {
    if n > header {
      hide Payments, HasRow, IsReadOff, Drops;
      PaymentsKeepRowNumbers(rows, mapping, header, n - 1);
      ReadOffGrows(rows, mapping, header, n, Payments(rows, mapping, header, n - 1));
      LastRowJoins(rows, mapping, header, n);
    }
  }

  /** Every row under the header is among the payments or is dropped, and never both. */
  lemma {:induction false} RowIsPaymentUnlessDropped(rows: seq<RawRow>, mapping: Mapping, header: nat, n: nat, j: nat)
    requires header <= j < n <= |rows| && Amount in mapping
    requires forall j :: header <= j < n ==> IsReadable(rows, mapping, j)
    ensures HasRow(Payments(rows, mapping, header, n), j + 1) <==> !Drops(rows, mapping, j)
  {
    hide Payments, HasRow, IsReadOff, Drops;
    PaymentsKeepRowNumbers(rows, mapping, header, n - 1);
    LastRowJoins(rows, mapping, header, n);
    if j < n - 1 {
      RowIsPaymentUnlessDropped(rows, mapping, header, n - 1, j);
    }
  }

  lemma ReadOffGrows(rows: seq<RawRow>, mapping: Mapping, header: nat, n: nat, kept: seq<PayoutRow>)
    requires 0 < n <= |rows| && Amount in mapping && AllReadOff(rows, mapping, header, n - 1, kept)
    ensures AllReadOff(rows, mapping, header, n, kept) && forall k :: 0 <= k < |kept| ==> kept[k].rowNumber < n
  {
  }

  /** The rows noted for lost digits are those under the header that are not dropped and have lost any. */
  lemma {:induction false} LostRowsAre(rows: seq<RawRow>, mapping: Mapping, header: nat, n: nat, i: nat)
    requires header <= n <= |rows| && Amount in mapping
    requires forall j :: header <= j < n ==> IsReadable(rows, mapping, j)
    ensures i in LostRows(rows, mapping, header, n) <==>
      header < i <= n && !Drops(rows, mapping, i - 1) && Loses(rows, mapping, i - 1)
  {
    hide ParseRow, IsDropped, LostDigits;
    if n > header {
      LostRowsAre(rows, mapping, header, n - 1, i);
      assert IsReadable(rows, mapping, n - 1);
    }
  }

  lemma LastRowJoins(rows: seq<RawRow>, mapping: Mapping, header: nat, n: nat)
    requires header < n <= |rows| && Amount in mapping
    requires forall j :: header <= j < n ==> IsReadable(rows, mapping, j)
    requires AllReadOff(rows, mapping, header, n - 1, Payments(rows, mapping, header, n - 1))
    ensures Drops(rows, mapping, n - 1) ==> !HasRow(Payments(rows, mapping, header, n), n)
    ensures forall r :: r != n ==>
      (HasRow(Payments(rows, mapping, header, n), r) <==> HasRow(Payments(rows, mapping, header, n - 1), r))
    ensures !Drops(rows, mapping, n - 1) ==> HasRow(Payments(rows, mapping, header, n), n)
    ensures !Drops(rows, mapping, n - 1) ==>
      exists p :: IsReadOff(rows, mapping, header, n, p) && p.rowNumber == n
        && Payments(rows, mapping, header, n) == Payments(rows, mapping, header, n - 1) + [p]
    ensures Drops(rows, mapping, n - 1) ==> Payments(rows, mapping, header, n) == Payments(rows, mapping, header, n - 1)
  {
    hide ParseRow, IsDropped, LostDigits;
    var earlier, kept := Payments(rows, mapping, header, n - 1), Payments(rows, mapping, header, n);
    assert IsReadable(rows, mapping, n - 1);
    ParseRowFacts(rows[n - 1].cells, mapping, n);
    assert forall k :: 0 <= k < |earlier| ==> kept[k] == earlier[k];
    if !Drops(rows, mapping, n - 1) {
      var p := ParseRow(rows[n - 1].cells, mapping, n).value.value;
      assert IsReadOff(rows, mapping, header, n, p) && kept == earlier + [p];
      assert kept[|earlier|].rowNumber == n;
    }
  }

  function Total(kept: seq<PayoutRow>): int {
    if kept == [] then 0 else Total(kept[..|kept| - 1]) + kept[|kept| - 1].amountMinor
  }

  lemma {:induction false} TotalIsBounded(kept: seq<PayoutRow>)
    requires forall k :: 0 <= k < |kept| ==> -MAX_AMOUNT_MINOR <= kept[k].amountMinor <= MAX_AMOUNT_MINOR
    ensures -|kept| * MAX_AMOUNT_MINOR <= Total(kept) <= |kept| * MAX_AMOUNT_MINOR
  {
    if kept != [] {
      TotalIsBounded(kept[..|kept| - 1]);
    }
  }

  const TWO_TO_63 := 0x8000_0000_0000_0000

  /** What a caller gets from a sheet with a table: at most 5000 rows with increasing numbers of their own,
      the noted ones without an account number, and a total that fits a signed 64-bit column. */
  lemma FoundTableFits(rows: seq<RawRow>, header: nat, mapping: Mapping, kept: seq<PayoutRow>, lost: seq<nat>)
    requires Outcome(Scan(rows, |rows|)) == Found(header, mapping, kept, lost)
    ensures HeaderIsAt(rows, header, mapping) && header <= 15 && |rows| <= header + 10_000 && |kept| <= 5_000
    ensures forall k, l :: 0 <= k < l < |kept| ==> header < kept[k].rowNumber < kept[l].rowNumber <= |rows|
    ensures forall i :: i in lost ==>
      exists k :: 0 <= k < |kept| && kept[k].rowNumber == i && kept[k].accountNumber == None
    ensures -TWO_TO_63 < Total(kept) < TWO_TO_63
  {
    hide Scan, HeaderMap, Payments, LostRows, IsReadable, IsReadOff, Loses;
    ScanFindsTableIff(rows, |rows|, header, mapping);
    PaymentsKeepRowNumbers(rows, mapping, header, |rows|);
    assert kept == Payments(rows, mapping, header, |rows|) && lost == LostRows(rows, mapping, header, |rows|);
    forall k | 0 <= k < |kept|
      ensures header < kept[k].rowNumber <= |rows|
      ensures -MAX_AMOUNT_MINOR <= kept[k].amountMinor <= MAX_AMOUNT_MINOR
      ensures Loses(rows, mapping, kept[k].rowNumber - 1) ==> kept[k].accountNumber == None
    {
      ReadOffFacts(rows, mapping, header, |rows|, kept[k]);
    }
    TotalIsBounded(kept);
    forall i | i in lost
      ensures exists k :: 0 <= k < |kept| && kept[k].rowNumber == i && kept[k].accountNumber == None
    {
      LostRowsAre(rows, mapping, header, |rows|, i);
      RowIsPaymentUnlessDropped(rows, mapping, header, |rows|, i - 1);
      assert HasRow(kept, (i - 1) + 1);
    }
  }

  lemma ReadOffFacts(rows: seq<RawRow>, mapping: Mapping, header: nat, n: nat, p: PayoutRow)
    requires n <= |rows| && Amount in mapping && IsReadOff(rows, mapping, header, n, p)
    ensures header < p.rowNumber <= n && -MAX_AMOUNT_MINOR <= p.amountMinor <= MAX_AMOUNT_MINOR
    ensures Loses(rows, mapping, p.rowNumber - 1) ==> p.accountNumber == None
  {
    hide ParseRow;
    ParseRowFacts(rows[p.rowNumber - 1].cells, mapping, p.rowNumber);
  }
}
