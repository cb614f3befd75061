/**
  The two-pass bulk import of residents: the first pass validates every row and rejects the whole
  import on any error, the second builds new accounts and updates existing ones. Whenever an import
  completes, the two passes are one fold over the rows in which the last row wins. As the code stands
  an import completes only when it has nothing to store; `Surroundings` names the two facts that decide.
 */
module ResidentImport {
  import opened Prelude

  datatype Row = Row(name: string, email: string, phone: string)

  datatype RowError = RowError(rowNumber: int, title: string, description: string)

  /** What a validator answers: error descriptions, and the value when there are none. */
  datatype Verdict = Verdict(errors: seq<string>, value: string)

  /** The validators of the three imported attributes and Django's e-mail normalisation, as given
      functions, and the dialing code that goes before phone numbers without one. */
  datatype Rules = Rules(
    name: string -> Verdict,
    email: string -> Verdict,
    phone: string -> Verdict,
    dialingCode: string,
    normalize: string -> string)

  const NAME_REPEATED := "name: Duplicate resident email address found. "
                         + "Please make sure all email addresses are unique"

  const CODE_MISSING := "phone_number: This attribute must be provided in your request if your phone number does "
                        + "not include country dialing code"

  datatype ValidRow = ValidRow(name: string, email: string, phone: string)

  datatype Resident = Resident(name: string, phone: string, ownerId: string, clusterId: string, isOwner: bool)

  /** Accounts by their unique e-mail address. */
  type Table = map<string, Resident>

  datatype Import = Import(rules: Rules, ownerId: string, clusterId: string, shouldUpsert: bool, hasHeaders: bool) {
    function Offset(): int { if hasHeaders then 2 else 1 }
  }

  datatype Outcome = Refused(errors: seq<RowError>) | Raised | Built(accounts: seq<Resident>)

  /** What the serializer takes for granted: that an account has a `cluster`, to build it with and to
      read when it is notified, and that `bulk_create` of no account at all returns a list. */
  datatype Surroundings = Surroundings(accountHasCluster: bool, bulkCreateReturnsList: bool)

  /** The account model has no `cluster`, and Django returns the empty view it was given. */
  const AS_WRITTEN := Surroundings(false, false)
  const INTENDED := Surroundings(true, true)

  // ---------------------------------------------------------------- first pass

  function Errors(descriptions: seq<string>, rowNumber: int, title: string): (r: seq<RowError>)
    ensures |r| == |descriptions|
  {
    seq(|descriptions|, i requires 0 <= i < |descriptions| => RowError(rowNumber, title, descriptions[i]))
  }

  predicate LacksCode(rules: Rules, phone: string) {
    !("+" <= phone) && rules.dialingCode == ""
  }

  /** Numbers that have none, and are not empty, get the dialing code before they are validated. */
  function PhoneVerdict(rules: Rules, phone: string): Verdict {
    if LacksCode(rules, phone) then Verdict([CODE_MISSING], "")
    else rules.phone(if phone != "" && !("+" <= phone) then rules.dialingCode + phone else phone)
  }

  /** The error about a missing code bears the code, which is empty, as its title. */
  function PhoneTitle(rules: Rules, phone: string): string {
    if LacksCode(rules, phone) then rules.dialingCode else phone
  }

  function ValidationErrors(rules: Rules, row: Row, rowNumber: int): seq<RowError> {
    Errors(rules.name(row.name).errors, rowNumber, row.name) +
    Errors(rules.email(row.email).errors, rowNumber, row.email) +
    Errors(PhoneVerdict(rules, row.phone).errors, rowNumber, PhoneTitle(rules, row.phone))
  }

  function Validated(rules: Rules, row: Row): ValidRow {
    ValidRow(rules.name(row.name).value, rules.email(row.email).value, PhoneVerdict(rules, row.phone).value)
  }

  function Names(rows: seq<Row>): set<string> {
    set row | row in rows :: row.name
  }

  /** The duplicate check looks at names, although its message speaks of e-mail addresses. */
  function DuplicateErrors(earlier: seq<Row>, row: Row, rowNumber: int): seq<RowError> {
    if row.name in Names(earlier)
    then [RowError(rowNumber, row.name, NAME_REPEATED)]
    else []
  }

  function ErrorsOfRow(rules: Rules, earlier: seq<Row>, row: Row, rowNumber: int): (r: seq<RowError>)
    ensures forall e :: e in r ==> e.rowNumber == rowNumber
  {
    ValidationErrors(rules, row, rowNumber) + DuplicateErrors(earlier, row, rowNumber)
  }

  function AllErrors(rules: Rules, rows: seq<Row>, offset: int): seq<RowError> {
    if |rows| == 0 then []
    else
      var n := |rows| - 1;
      AllErrors(rules, rows[..n], offset) + ErrorsOfRow(rules, rows[..n], rows[n], offset + n)
  }

  predicate SortedByRow(errors: seq<RowError>) {
    forall i, j :: 0 <= i < j < |errors| ==> errors[i].rowNumber <= errors[j].rowNumber
  }

  /** The error list holds exactly the errors of each row under that row's number in the file. */
  lemma {:induction false} AllErrorsAreTheRowsErrors(rules: Rules, rows: seq<Row>, offset: int, e: RowError)
    ensures e in AllErrors(rules, rows, offset) <==>
              exists i :: 0 <= i < |rows| && e.rowNumber == offset + i
                       && e in ErrorsOfRow(rules, rows[..i], rows[i], offset + i)
  {
    hide ErrorsOfRow;
    if |rows| > 0 {
      var n := |rows| - 1;
      AllErrorsAreTheRowsErrors(rules, rows[..n], offset, e);
      if e in AllErrors(rules, rows[..n], offset) {
        var i :| 0 <= i < n && e.rowNumber == offset + i
                 && e in ErrorsOfRow(rules, rows[..n][..i], rows[..n][i], offset + i);
        assert rows[..n][..i] == rows[..i];
      }
      if i :| 0 <= i < n && e.rowNumber == offset + i && e in ErrorsOfRow(rules, rows[..i], rows[i], offset + i) {
        assert rows[..n][..i] == rows[..i] && rows[..n][i] == rows[i];
      }
    }
  }

  lemma {:induction false} AllErrorsAreSorted(rules: Rules, rows: seq<Row>, offset: int)
    ensures SortedByRow(AllErrors(rules, rows, offset))
    ensures forall e :: e in AllErrors(rules, rows, offset) ==> offset <= e.rowNumber < offset + |rows|
  {
    hide ErrorsOfRow;
    if |rows| > 0 {
      AllErrorsAreSorted(rules, rows[..|rows| - 1], offset);
    }
  }

  /** Python's stable `list.sort(key=row_number)`, as insertion of one element after another. */
  function Insert(xs: seq<RowError>, e: RowError): seq<RowError> {
    if |xs| == 0 || xs[|xs| - 1].rowNumber <= e.rowNumber then xs + [e]
    else Insert(xs[..|xs| - 1], e) + [xs[|xs| - 1]]
  }

  function StableSort(errors: seq<RowError>): seq<RowError> {
    if |errors| == 0 then [] else Insert(StableSort(errors[..|errors| - 1]), errors[|errors| - 1])
  }

  /** The errors are collected in row order already, so sorting them loses and moves nothing. */
  lemma {:induction false} SortKeepsSortedList(errors: seq<RowError>)
    requires SortedByRow(errors)
    ensures StableSort(errors) == errors
  {
    if |errors| > 0 {
      var n := |errors| - 1;
      SortKeepsSortedList(errors[..n]);
      assert Insert(errors[..n], errors[n]) == errors[..n] + [errors[n]];
      hide Insert;
      assert errors == errors[..n] + [errors[n]];
    }
  }

  /** The values stored by the first pass, under the numbers of the valid rows. */
  function ValidatedRows(rules: Rules, rows: seq<Row>, offset: int): map<int, ValidRow> {
    if |rows| == 0 then map[]
    else
      var n := |rows| - 1;
      var stored := ValidatedRows(rules, rows[..n], offset);
      if ValidationErrors(rules, rows[n], offset + n) != [] then stored
      else stored[offset + n := Validated(rules, rows[n])]
  }

  /** Without errors, every lookup of the second pass hits what the first pass stored for that row. */
  lemma {:induction false} SecondPassLookupHits(rules: Rules, rows: seq<Row>, offset: int, i: nat)
    requires AllErrors(rules, rows, offset) == [] && i < |rows|
    ensures offset + i in ValidatedRows(rules, rows, offset)
    ensures ValidatedRows(rules, rows, offset)[offset + i] == Validated(rules, rows[i])
  {
    hide DuplicateErrors, ValidationErrors;
    var n := |rows| - 1;
    if i < n {
      SecondPassLookupHits(rules, rows[..n], offset, i);
    } else {
      assert |ErrorsOfRow(rules, rows[..n], rows[n], offset + n)| == 0;
      assert |ValidationErrors(rules, rows[n], offset + n)| == 0;
    }
  }

  // ---------------------------------------------------------------- second pass

  /** The account a row is about: an existing resident by raw address, or a new one by normalised address. */
  datatype Target = Existing(email: string) | New(email: string)

  function TargetOf(imp: Import, existing: set<string>, row: Row): Target {
    if row.email in existing then Existing(row.email)
    else New(imp.rules.normalize(Validated(imp.rules, row).email))
  }

  function NewResident(imp: Import, row: Row): Resident {
    var v := Validated(imp.rules, row);
    Resident(v.name, v.phone, imp.ownerId, imp.clusterId, true)
  }

  function Updated(imp: Import, r: Resident, row: Row): Resident {
    var v := Validated(imp.rules, row);
    r.(name := v.name, phone := v.phone)
  }

  function Emails(rows: seq<Row>): set<string> {
    set row | row in rows :: row.email
  }

  /** The owner's residents whose address occurs in the file. */
  function Loaded(imp: Import, db: Table, rows: seq<Row>): Table {
    map e | e in db && db[e].ownerId == imp.ownerId && e in Emails(rows) :: db[e]
  }

  function UpdatedExisting(imp: Import, loaded: Table, rows: seq<Row>): (t: Table)
    ensures t.Keys == loaded.Keys
  {
    if |rows| == 0 then loaded
    else
      var t := UpdatedExisting(imp, loaded, rows[..|rows| - 1]);
      var row := rows[|rows| - 1];
      if row.email in t && imp.shouldUpsert then t[row.email := Updated(imp, t[row.email], row)] else t
  }

  function NewAccounts(imp: Import, existing: set<string>, rows: seq<Row>): Table {
    if |rows| == 0 then map[]
    else
      var t := NewAccounts(imp, existing, rows[..|rows| - 1]);
      var row := rows[|rows| - 1];
      match TargetOf(imp, existing, row)
      case Existing(_) => t
      case New(e) => t[e := NewResident(imp, row)]
  }

  /** `bulk_update` of the loaded residents, then `bulk_create` ignoring rows whose address is taken. */
  function Persisted(db: Table, existing: Table, created: Table): Table {
    map e | e in db.Keys + created.Keys :: if e in existing then existing[e] else if e in db then db[e] else created[e]
  }

  /** Some row's raw address is not that of a loaded resident. */
  predicate HasUnknown(existing: set<string>, rows: seq<Row>) {
    exists row :: row in rows && row.email !in existing
  }

  /** An import without row errors raises when it has to build an account that cannot be built, and
      when it has none to build but appends the updated residents to what is then no list. */
  predicate Raises(around: Surroundings, imp: Import, db: Table, rows: seq<Row>) {
    if HasUnknown(Loaded(imp, db, rows).Keys, rows) then !around.accountHasCluster
    else imp.shouldUpsert && !around.bulkCreateReturnsList
  }

  /** New accounts are built exactly when some row is unknown. */
  lemma {:induction false} NewAccountsIff(imp: Import, existing: set<string>, rows: seq<Row>)
    ensures HasUnknown(existing, rows) <==> NewAccounts(imp, existing, rows) != map[]
  {
    hide NewResident, Validated;
    if |rows| > 0 {
      var n := |rows| - 1;
      NewAccountsIff(imp, existing, rows[..n]);
      var before := NewAccounts(imp, existing, rows[..n]);
      assert HasUnknown(existing, rows) <==> HasUnknown(existing, rows[..n]) || rows[n].email !in existing;
      if TargetOf(imp, existing, rows[n]).New? {
        var e := TargetOf(imp, existing, rows[n]).email;
        assert e in before[e := NewResident(imp, rows[n])];
      }
    }
  }

  /** Under each address: the loaded resident, else the account stored there, else the new one. */
  ghost predicate Merged(db: Table, existing: Table, created: Table, db': Table) {
    && (forall e :: e in db' <==> e in db || e in existing || e in created)
    && (forall e :: e in existing ==> db'[e] == existing[e])
    && (forall e :: e in db && e !in existing ==> db'[e] == db[e])
    && (forall e :: e in created && e !in existing && e !in db ==> db'[e] == created[e])
  }

  lemma MergedIsPersisted(db: Table, existing: Table, created: Table, db': Table)
    requires Merged(db, existing, created, db') && existing.Keys <= db.Keys
    ensures db' == Persisted(db, existing, created)
  {
  }

  // ---------------------------------------------------------------- the import object

  predicate HoldsRow(imp: Import, validated: map<int, ValidRow>, row: Row, rowNumber: int) {
    rowNumber in validated && validated[rowNumber] == Validated(imp.rules, row)
  }

  predicate HoldsRows(imp: Import, validated: map<int, ValidRow>, rows: seq<Row>) {
    forall i :: 0 <= i < |rows| ==> HoldsRow(imp, validated, rows[i], imp.Offset() + i)
  }

  lemma SecondPassLookupsHit(imp: Import, rows: seq<Row>)
    requires AllErrors(imp.rules, rows, imp.Offset()) == []
    ensures HoldsRows(imp, ValidatedRows(imp.rules, rows, imp.Offset()), rows)
  {
    hide AllErrors, ValidatedRows, Validated;
    forall i | 0 <= i < |rows|
      ensures HoldsRow(imp, ValidatedRows(imp.rules, rows, imp.Offset()), rows[i], imp.Offset() + i)
    {
      SecondPassLookupHits(imp.rules, rows, imp.Offset(), i);
    }
  }

  class ResidentImporter {
    const imp: Import
    const around: Surroundings
    var globalErrors: seq<RowError>
    var validatedRowData: map<int, ValidRow>
    var seenNames: set<string>
    var existingResidents: Table
    var newResidentAccounts: Table
    var newAddresses: seq<string>  // the insertion order of newResidentAccounts

    constructor (imp: Import, around: Surroundings)
      ensures this.imp == imp && this.around == around
      ensures globalErrors == [] && validatedRowData == map[] && seenNames == {}
      ensures existingResidents == map[] && newResidentAccounts == map[] && newAddresses == []
    {
      this.imp, this.around := imp, around;
      globalErrors, validatedRowData, seenNames := [], map[], {};
      existingResidents, newResidentAccounts, newAddresses := map[], map[], [];
    }

    method ValidatePhoneNumber(phone: string) returns (verdict: Verdict)
      ensures verdict == PhoneVerdict(imp.rules, phone)
    {
      if !("+" <= phone) && imp.rules.dialingCode == "" {
        return Verdict([CODE_MISSING], "");
      }
      var value := phone;
      if phone != "" && !("+" <= phone) {
        value := imp.rules.dialingCode + phone;
      }
      verdict := imp.rules.phone(value);
    }

    method ValidateRowData(row: Row, rowNumber: int) returns (errors: seq<RowError>)
      modifies this`validatedRowData
      ensures errors == ValidationErrors(imp.rules, row, rowNumber)
      ensures validatedRowData == if errors != [] then old(validatedRowData)
                                  else old(validatedRowData)[rowNumber := Validated(imp.rules, row)]
    {
      errors := [];
      var name := imp.rules.name(row.name);
      if name.errors != [] { errors := errors + Errors(name.errors, rowNumber, row.name); }
      var email := imp.rules.email(row.email);
      if email.errors != [] { errors := errors + Errors(email.errors, rowNumber, row.email); }
      var phone := ValidatePhoneNumber(row.phone);
      if phone.errors != [] {
        errors := errors + Errors(phone.errors, rowNumber, PhoneTitle(imp.rules, row.phone));
      }
      if errors != [] {
        return;
      }
      validatedRowData := validatedRowData[rowNumber := ValidRow(name.value, email.value, phone.value)];
    }

    method CheckForDuplicates(ghost earlier: seq<Row>, row: Row, rowNumber: int) returns (errors: seq<RowError>)
      requires seenNames == Names(earlier)
      modifies this`seenNames
      ensures errors == DuplicateErrors(earlier, row, rowNumber)
      ensures seenNames == Names(earlier + [row])
    {
      assert Names(earlier + [row]) == Names(earlier) + {row.name};
      if row.name in seenNames {
        return [RowError(rowNumber, row.name, NAME_REPEATED)];
      }
      seenNames := seenNames + {row.name};
      errors := [];
    }

    /** Loads a resident exactly when it belongs to the owner and some row of the file names it. */
    method LoadExistingResidents(db: Table, rows: seq<Row>)
      modifies this`existingResidents
      ensures forall e :: e in existingResidents <==>
                e in db && db[e].ownerId == imp.ownerId && exists i :: 0 <= i < |rows| && rows[i].email == e
      ensures forall e :: e in existingResidents ==> existingResidents[e] == db[e]
    {
      var addresses := set row | row in rows :: row.email;
      existingResidents := map e | e in db && db[e].ownerId == imp.ownerId && e in addresses :: db[e];
    }

    method UpdateOldResident(row: Row, rowNumber: int)
      requires row.email in existingResidents && rowNumber in validatedRowData
      requires validatedRowData[rowNumber] == Validated(imp.rules, row)
      modifies this`existingResidents
      ensures existingResidents ==
              old(existingResidents)[row.email := Updated(imp, old(existingResidents)[row.email], row)]
    {
      var valid := validatedRowData[rowNumber];
      var resident := existingResidents[row.email];
      resident := resident.(phone := valid.phone);
      resident := resident.(name := valid.name);
      existingResidents := existingResidents[row.email := resident];
    }

    method InitializeNewResident(row: Row, rowNumber: int) returns (raised: bool)
      requires rowNumber in validatedRowData && validatedRowData[rowNumber] == Validated(imp.rules, row)
      requires NoDuplicates(newAddresses) && Elements(newAddresses) == newResidentAccounts.Keys
      modifies this`newResidentAccounts, this`newAddresses
      ensures raised == !around.accountHasCluster
      ensures NoDuplicates(newAddresses) && Elements(newAddresses) == newResidentAccounts.Keys
      ensures newResidentAccounts ==
              if raised then old(newResidentAccounts)
              else var address := imp.rules.normalize(Validated(imp.rules, row).email);
                   old(newResidentAccounts)[address := NewResident(imp, row)]
    {
      var valid := validatedRowData[rowNumber];
      if !around.accountHasCluster {
        return true;  // the constructor refuses the keyword argument
      }
      var resident := Resident(valid.name, valid.phone, imp.ownerId, imp.clusterId, false);
      resident := resident.(isOwner := true);
      var address := imp.rules.normalize(valid.email);
      if address !in newResidentAccounts {
        assert address !in Elements(newAddresses);
        newAddresses := newAddresses + [address];
      }
      newResidentAccounts := newResidentAccounts[address := resident];
      raised := false;
    }

    method FirstPass(rows: seq<Row>)
      requires globalErrors == [] && validatedRowData == map[] && seenNames == {}
      modifies this`globalErrors, this`validatedRowData, this`seenNames
      ensures globalErrors == AllErrors(imp.rules, rows, imp.Offset())
      ensures validatedRowData == ValidatedRows(imp.rules, rows, imp.Offset())
    {
      hide DuplicateErrors, ValidationErrors;
      for i := 0 to |rows|
        invariant globalErrors == AllErrors(imp.rules, rows[..i], imp.Offset())
        invariant seenNames == Names(rows[..i])
        invariant validatedRowData == ValidatedRows(imp.rules, rows[..i], imp.Offset())
      {
        var rowNumber := imp.Offset() + i;
        assert rows[..i + 1][..i] == rows[..i] && rows[..i] + [rows[i]] == rows[..i + 1];
        var invalid := ValidateRowData(rows[i], rowNumber);
        if invalid != [] {
          globalErrors := globalErrors + invalid;
        }
        var duplicate := CheckForDuplicates(rows[..i], rows[i], rowNumber);
        if duplicate != [] {
          globalErrors := globalErrors + duplicate;
        }
      }
      assert rows[..|rows|] == rows;
    }

    method SecondPass(rows: seq<Row>) returns (raised: bool)
      requires HoldsRows(imp, validatedRowData, rows)
      requires newResidentAccounts == map[] && newAddresses == []
      modifies this`existingResidents, this`newResidentAccounts, this`newAddresses
      ensures raised <==> !around.accountHasCluster && HasUnknown(old(existingResidents).Keys, rows)
      ensures !raised ==> existingResidents == UpdatedExisting(imp, old(existingResidents), rows)
      ensures !raised ==> newResidentAccounts == NewAccounts(imp, old(existingResidents).Keys, rows)
      ensures NoDuplicates(newAddresses) && Elements(newAddresses) == newResidentAccounts.Keys
    {
      for i := 0 to |rows|
        invariant existingResidents == UpdatedExisting(imp, old(existingResidents), rows[..i])
        invariant newResidentAccounts == NewAccounts(imp, old(existingResidents).Keys, rows[..i])
        invariant NoDuplicates(newAddresses) && Elements(newAddresses) == newResidentAccounts.Keys
        invariant around.accountHasCluster || !HasUnknown(old(existingResidents).Keys, rows[..i])
      {
        assert rows[..i + 1][..i] == rows[..i];
        assert HoldsRow(imp, validatedRowData, rows[i], imp.Offset() + i);
        if rows[i].email in existingResidents {
          if imp.shouldUpsert {
            UpdateOldResident(rows[i], imp.Offset() + i);
          }
        } else {
          raised := InitializeNewResident(rows[i], imp.Offset() + i);
          if raised {
            return;
          }
        }
      }
      assert rows[..|rows|] == rows;
      raised := false;
    }

    /** All or nothing: any error refuses the import with every error, in row order, and leaves the
        residents and the new accounts empty; otherwise both hold what the fold says, unless an
        account that cannot be built makes it raise. */
    method ToInternalValue(db: Table, rows: seq<Row>) returns (o: Outcome)
      requires globalErrors == [] && validatedRowData == map[] && seenNames == {}
      requires existingResidents == map[] && newResidentAccounts == map[] && newAddresses == []
      modifies this
      ensures o.Refused? <==> AllErrors(imp.rules, rows, imp.Offset()) != []
      ensures o.Refused? ==>
                && o.errors == AllErrors(imp.rules, rows, imp.Offset()) && SortedByRow(o.errors)
                && existingResidents == map[] && newResidentAccounts == map[]
      ensures o.Raised? <==>
                && AllErrors(imp.rules, rows, imp.Offset()) == []
                && !around.accountHasCluster && HasUnknown(Loaded(imp, db, rows).Keys, rows)
      ensures o.Built? ==>
                && existingResidents == UpdatedExisting(imp, Loaded(imp, db, rows), rows)
                && newResidentAccounts == NewAccounts(imp, Loaded(imp, db, rows).Keys, rows)
                && NoDuplicates(newAddresses) && Elements(newAddresses) == newResidentAccounts.Keys
                && |o.accounts| == |newAddresses|
                && forall i :: 0 <= i < |newAddresses| ==> o.accounts[i] == newResidentAccounts[newAddresses[i]]
    {
      hide AllErrors, UpdatedExisting, NewAccounts, ValidationErrors, ValidatedRows, HasUnknown;
      FirstPass(rows);
      if globalErrors != [] {
        AllErrorsAreSorted(imp.rules, rows, imp.Offset());
        SortKeepsSortedList(globalErrors);
        globalErrors := StableSort(globalErrors);
        return Refused(globalErrors);
      }
      LoadExistingResidents(db, rows);
      assert existingResidents == Loaded(imp, db, rows);
      hide Loaded;
      assert HoldsRows(imp, validatedRowData, rows) by { SecondPassLookupsHit(imp, rows); }
      var raised := SecondPass(rows);
      if raised {
        return Raised;
      }
      assert forall i :: 0 <= i < |newAddresses| ==> newAddresses[i] in Elements(newAddresses);
      var addresses, accounts := newAddresses, newResidentAccounts;
      o := Built(seq(|addresses|,
                     i requires 0 <= i < |addresses| && addresses[i] in accounts => accounts[addresses[i]]));
    }

    /** Stores everything or, when it raises, nothing. Under each address the table ends with the
        loaded resident, else with the one it had, else with the new account. */
    method Persist(db: Table) returns (raised: bool, db': Table)
      requires NoDuplicates(newAddresses) && Elements(newAddresses) == newResidentAccounts.Keys
      ensures raised <==> imp.shouldUpsert && newResidentAccounts == map[] && !around.bulkCreateReturnsList
      ensures raised ==> db' == db
      ensures !raised ==> Merged(db, existingResidents, newResidentAccounts, db')
    {
      db' := BulkUpdate(db);
      db' := BulkCreate(db');
      assert newResidentAccounts == map[] <==> newAddresses == [] by {
        assert newAddresses != [] ==> newAddresses[0] in Elements(newAddresses);
      }
      raised := false;
      if imp.shouldUpsert && newAddresses == [] && !around.bulkCreateReturnsList {
        return true, db;  // adding a list to an empty view raises: the transaction is rolled back
      }
    }

    method BulkUpdate(db: Table) returns (db': Table)
      ensures db'.Keys == db.Keys + existingResidents.Keys
      ensures forall e :: e in db' ==> db'[e] == if e in existingResidents then existingResidents[e] else db[e]
    {
      db' := db;
      var rest := existingResidents.Keys;
      while rest != {}
        invariant rest <= existingResidents.Keys
        invariant db'.Keys == db.Keys + (existingResidents.Keys - rest)
        invariant forall e :: e in db' ==>
                    db'[e] == if e in existingResidents && e !in rest then existingResidents[e] else db[e]
        decreases rest
      {
        var e :| e in rest;
        rest := rest - {e};
        db' := db'[e := existingResidents[e]];
      }
    }

    /** Accounts whose address is taken are left out without an error. */
    method BulkCreate(db: Table) returns (db': Table)
      requires NoDuplicates(newAddresses) && Elements(newAddresses) == newResidentAccounts.Keys
      ensures db'.Keys == db.Keys + newResidentAccounts.Keys
      ensures forall e :: e in db' ==> db'[e] == if e in db then db[e] else newResidentAccounts[e]
    {
      db' := db;
      for i := 0 to |newAddresses|
        invariant db'.Keys == db.Keys + Elements(newAddresses[..i])
        invariant forall e :: e in db' ==> db'[e] == if e in db then db[e] else newResidentAccounts[e]
      {
        var e := newAddresses[i];
        assert e in Elements(newAddresses);
        assert Elements(newAddresses[..i + 1]) == Elements(newAddresses[..i]) + {e};
        if e !in db' {
          db' := db'[e := newResidentAccounts[e]];
        }
      }
      assert newAddresses[..|newAddresses|] == newAddresses;
    }
  }

  /** What an import request answers and leaves behind: the errors, an exception, or the fold. */
  ghost predicate Imports(around: Surroundings, imp: Import, db: Table, rows: seq<Row>, o: Outcome, db': Table) {
    var errors := AllErrors(imp.rules, rows, imp.Offset());
    if errors != [] then o == Refused(errors) && db' == db
    else if Raises(around, imp, db, rows) then o == Raised && db' == db
    else o.Built? && db' == FoldRows(imp, db, rows, rows)
  }

  /** A whole import request. */
  method RunImport(around: Surroundings, imp: Import, db: Table, rows: seq<Row>) returns (o: Outcome, db': Table)
    ensures Imports(around, imp, db, rows, o, db')
  {
    var importer := new ResidentImporter(imp, around);
    o := importer.ToInternalValue(db, rows);
    if !o.Built? {
      return o, db;
    }
    var loaded := Loaded(imp, db, rows);
    assert loaded.Keys <= db.Keys;
    NewAccountsIff(imp, loaded.Keys, rows);
    TwoPassesAreOneFold(imp, db, rows, rows);
    hide AllErrors, Loaded, UpdatedExisting, NewAccounts, FoldRows, HasUnknown, Merged, Persisted;
    var raised: bool;
    raised, db' := importer.Persist(db);
    if raised {
      return Raised, db';
    }
    MergedIsPersisted(db, importer.existingResidents, importer.newResidentAccounts, db');
  }

  // ---------------------------------------------------------------- the fold

  /** One row applied to the table, `db` being the table the import started from. */
  function ApplyRow(imp: Import, db: Table, existing: set<string>, t: Table, row: Row): Table {
    match TargetOf(imp, existing, row)
    case Existing(e) => if imp.shouldUpsert && e in t then t[e := Updated(imp, t[e], row)] else t
    case New(e) => if e in db then t else t[e := NewResident(imp, row)]
  }

  function FoldRows(imp: Import, db: Table, file: seq<Row>, rows: seq<Row>): Table {
    if |rows| == 0 then db
    else ApplyRow(imp, db, Loaded(imp, db, file).Keys, FoldRows(imp, db, file, rows[..|rows| - 1]), rows[|rows| - 1])
  }

  lemma PersistUpdated(db: Table, existing: Table, created: Table, e: string, r: Resident)
    requires e in existing && existing.Keys <= db.Keys
    ensures e in Persisted(db, existing, created) && Persisted(db, existing, created)[e] == existing[e]
    ensures Persisted(db, existing[e := r], created) == Persisted(db, existing, created)[e := r]
  {
  }

  lemma PersistCreated(db: Table, existing: Table, created: Table, e: string, r: Resident)
    requires existing.Keys <= db.Keys
    ensures Persisted(db, existing, created[e := r]) ==
            if e in db then Persisted(db, existing, created) else Persisted(db, existing, created)[e := r]
  {
  }

  lemma TwoPassesStep(imp: Import, db: Table, file: seq<Row>, rows: seq<Row>, loaded: Table)
    requires |rows| > 0 && loaded == Loaded(imp, db, file) && loaded.Keys <= db.Keys
    requires var before := rows[..|rows| - 1];
             Persisted(db, UpdatedExisting(imp, loaded, before), NewAccounts(imp, loaded.Keys, before))
             == FoldRows(imp, db, file, before)
    ensures Persisted(db, UpdatedExisting(imp, loaded, rows), NewAccounts(imp, loaded.Keys, rows))
            == FoldRows(imp, db, file, rows)
  {
    hide Loaded, Updated, NewResident, Persisted;
    var n := |rows| - 1;
    var existing, created := UpdatedExisting(imp, loaded, rows[..n]), NewAccounts(imp, loaded.Keys, rows[..n]);
    match TargetOf(imp, loaded.Keys, rows[n]) {
      case Existing(e) =>
        if imp.shouldUpsert {
          PersistUpdated(db, existing, created, e, Updated(imp, existing[e], rows[n]));
        }
      case New(e) =>
        PersistCreated(db, existing, created, e, NewResident(imp, rows[n]));
    }
  }

  /** Loading, updating, building and persisting amount to applying the rows one after another. */
  lemma {:induction false} TwoPassesAreOneFold(imp: Import, db: Table, file: seq<Row>, rows: seq<Row>)
    ensures var loaded := Loaded(imp, db, file);
            Persisted(db, UpdatedExisting(imp, loaded, rows), NewAccounts(imp, loaded.Keys, rows))
            == FoldRows(imp, db, file, rows)
  {
    var loaded := Loaded(imp, db, file);
    if |rows| == 0 {
      assert Persisted(db, loaded, map[]) == db;
    } else {
      assert loaded.Keys <= db.Keys;
      TwoPassesAreOneFold(imp, db, file, rows[..|rows| - 1]);
      hide *;
      TwoPassesStep(imp, db, file, rows, loaded);
    }
  }

  /** The last row about a target, if any. */
  function LastFor(imp: Import, existing: set<string>, rows: seq<Row>, t: Target): (r: Option<nat>)
    ensures match r
            case None => forall i :: 0 <= i < |rows| ==> TargetOf(imp, existing, rows[i]) != t
            case Some(k) => && k < |rows| && TargetOf(imp, existing, rows[k]) == t
                            && forall i :: k < i < |rows| ==> TargetOf(imp, existing, rows[i]) != t
  {
    if |rows| == 0 then None
    else if TargetOf(imp, existing, rows[|rows| - 1]) == t then Some(|rows| - 1)
    else LastFor(imp, existing, rows[..|rows| - 1], t)
  }

  /** What the import makes of the account stored under `e`. */
  function Imported(imp: Import, db: Table, existing: set<string>, rows: seq<Row>, e: string): Option<Resident> {
    if e in db then
      var last := LastFor(imp, existing, rows, Existing(e));
      Some(if imp.shouldUpsert && last.Some? then Updated(imp, db[e], rows[last.value]) else db[e])
    else
      var last := LastFor(imp, existing, rows, New(e));
      if last.Some? then Some(NewResident(imp, rows[last.value])) else None
  }

  /** What applying one row does to the account stored under `e`. */
  lemma RowAppliedAt(imp: Import, db: Table, existing: set<string>, t: Table, row: Row, e: string)
    requires db.Keys <= t.Keys && existing <= db.Keys
    ensures var after := ApplyRow(imp, db, existing, t, row);
            && t.Keys <= after.Keys
            && (e in db ==> after[e] == if imp.shouldUpsert && TargetOf(imp, existing, row) == Existing(e)
                                        then Updated(imp, t[e], row) else t[e])
            && (e !in db && TargetOf(imp, existing, row) == New(e) ==> e in after && after[e] == NewResident(imp, row))
            && (e !in db && TargetOf(imp, existing, row) != New(e) ==>
                  (e in after <==> e in t) && (e in t ==> after[e] == t[e]))
  {
  }

  /** Last row wins: an existing resident of the owner ends with the name and phone of the last row
      bearing its address (with upsert; without, it is unchanged), each new normalised address yields
      one account built from the last row bearing it, and nothing else changes. */
  lemma {:induction false} LastRowWins(imp: Import, db: Table, file: seq<Row>, rows: seq<Row>, e: string)
    ensures var after := FoldRows(imp, db, file, rows);
            var expected := Imported(imp, db, Loaded(imp, db, file).Keys, rows, e);
            && db.Keys <= after.Keys
            && (e in after <==> expected.Some?)
            && (expected.Some? ==> after[e] == expected.value)
  {
    if |rows| > 0 {
      var n := |rows| - 1;
      LastRowWins(imp, db, file, rows[..n], e);
      var existing := Loaded(imp, db, file).Keys;
      assert existing <= db.Keys;
      hide Loaded, ApplyRow, TargetOf, NewResident;
      RowAppliedAt(imp, db, existing, FoldRows(imp, db, file, rows[..n]), rows[n], e);
    }
  }

  // ---------------------------------------------------------------- rows that have no effect

  /** A row counts when it updates a loaded resident or its normalised address is free. */
  predicate Effective(imp: Import, db: Table, existing: set<string>, row: Row) {
    match TargetOf(imp, existing, row)
    case Existing(_) => imp.shouldUpsert
    case New(e) => e !in db
  }

  function EffectiveRows(imp: Import, db: Table, existing: set<string>, rows: seq<Row>): seq<Row> {
    if |rows| == 0 then []
    else
      var row := rows[|rows| - 1];
      EffectiveRows(imp, db, existing, rows[..|rows| - 1]) + if Effective(imp, db, existing, row) then [row] else []
  }

  /** The table depends on the effective rows only. */
  lemma {:induction false} OnlyEffectiveRowsCount(imp: Import, db: Table, file: seq<Row>, rows: seq<Row>)
    ensures FoldRows(imp, db, file, rows)
            == FoldRows(imp, db, file, EffectiveRows(imp, db, Loaded(imp, db, file).Keys, rows))
  {
    hide Loaded, Updated, NewResident, TargetOf;
    if |rows| > 0 {
      var n := |rows| - 1;
      var existing := Loaded(imp, db, file).Keys;
      OnlyEffectiveRowsCount(imp, db, file, rows[..n]);
      var kept := EffectiveRows(imp, db, existing, rows[..n]);
      var t := FoldRows(imp, db, file, kept);
      assert FoldRows(imp, db, file, rows) == ApplyRow(imp, db, existing, t, rows[n]);
      if Effective(imp, db, existing, rows[n]) {
        assert (kept + [rows[n]])[..|kept|] == kept;
        assert FoldRows(imp, db, file, kept + [rows[n]]) == ApplyRow(imp, db, existing, t, rows[n]);
      } else {
        assert ApplyRow(imp, db, existing, t, rows[n]) == t;
        assert EffectiveRows(imp, db, existing, rows) == kept;
      }
    }
  }

  /** And each of them does count: the last effective row about a target is what the import stores. */
  lemma EffectiveRowIsStored(imp: Import, db: Table, rows: seq<Row>, k: nat)
    requires k < |rows| && Effective(imp, db, Loaded(imp, db, rows).Keys, rows[k])
    requires var existing := Loaded(imp, db, rows).Keys;
             forall i :: k < i < |rows| ==> TargetOf(imp, existing, rows[i]) != TargetOf(imp, existing, rows[k])
    ensures var e := TargetOf(imp, Loaded(imp, db, rows).Keys, rows[k]).email;
            var after := FoldRows(imp, db, rows, rows);
            && e in after
            && after[e] == if e in db then Updated(imp, db[e], rows[k]) else NewResident(imp, rows[k])
  {
    var existing := Loaded(imp, db, rows).Keys;
    var target := TargetOf(imp, existing, rows[k]);
    LastRowWins(imp, db, rows, rows, target.email);
    assert LastFor(imp, existing, rows, target) == Some(k);
  }

  // ---------------------------------------------------------------- what a request does

  /** Whenever an import completes, in whatever surroundings, the last row wins under every address. */
  lemma CompletedImport(around: Surroundings, imp: Import, db: Table, rows: seq<Row>, o: Outcome, db': Table, e: string)
    requires Imports(around, imp, db, rows, o, db') && o.Built?
    ensures var expected := Imported(imp, db, Loaded(imp, db, rows).Keys, rows, e);
            (e in db' <==> expected.Some?) && (expected.Some? ==> db'[e] == expected.value)
  {
    LastRowWins(imp, db, rows, rows, e);
  }

  /** A file with one row, whose name has one complaint: it is reported in line 2 with headers, in line 1
      without. */
  lemma FirstRowIsNumbered(around: Surroundings, imp: Import, db: Table, row: Row, complaint: string, o: Outcome,
                           db': Table)
    requires Imports(around, imp, db, [row], o, db')
    requires imp.rules.name(row.name).errors == [complaint] && imp.rules.email(row.email).errors == []
    requires "+" <= row.phone && imp.rules.phone(row.phone).errors == []
    ensures imp.hasHeaders ==> o == Refused([RowError(2, row.name, complaint)])
    ensures !imp.hasHeaders ==> o == Refused([RowError(1, row.name, complaint)])
    ensures db' == db
  {
    var line := imp.Offset();
    assert [row][..0] == [] && AllErrors(imp.rules, [], line) == [];
    assert Errors([complaint], line, row.name) == [RowError(line, row.name, complaint)];
    assert AllErrors(imp.rules, [row], line) == ErrorsOfRow(imp.rules, [], row, line);
    assert ErrorsOfRow(imp.rules, [], row, line) == [RowError(line, row.name, complaint)];
    hide AllErrors, ErrorsOfRow, FoldRows, Raises;
  }

  /** The row is about the stored account `e`: a resident of the importing owner whose address it bears. */
  predicate IsAbout(imp: Import, db: Table, row: Row, e: string) {
    row.email == e && e in db && db[e].ownerId == imp.ownerId
  }

  /** The row makes a new account: it is about no resident of the owner, and its validated address is
      `e` in normal form. */
  predicate IsNewAs(imp: Import, db: Table, row: Row, e: string) {
    && !(row.email in db && db[row.email].ownerId == imp.ownerId)
    && imp.rules.normalize(imp.rules.email(row.email).value) == e
  }

  /** The validated phone number, with the dialing code before a number that has none. */
  function PhoneOf(rules: Rules, phone: string): string {
    if "+" <= phone then rules.phone(phone).value
    else if rules.dialingCode == "" then ""
    else if phone == "" then rules.phone("").value
    else rules.phone(rules.dialingCode + phone).value
  }

  /** What a completed import made of a resident of the owner: it has the validated name and phone number
      of the last row with its address (only with upsert), and keeps the rest. */
  lemma CompletedImportUpdates(around: Surroundings, imp: Import, db: Table, rows: seq<Row>, o: Outcome, db': Table,
                               k: nat)
    requires Imports(around, imp, db, rows, o, db') && o.Built?
    requires k < |rows| && IsAbout(imp, db, rows[k], rows[k].email)
    requires forall i :: k < i < |rows| ==> rows[i].email != rows[k].email
    ensures var e := rows[k].email;
            && e in db'
            && db'[e].ownerId == db[e].ownerId && db'[e].clusterId == db[e].clusterId && db'[e].isOwner == db[e].isOwner
            && db'[e].name == (if imp.shouldUpsert then imp.rules.name(rows[k].name).value else db[e].name)
            && db'[e].phone == (if imp.shouldUpsert then PhoneOf(imp.rules, rows[k].phone) else db[e].phone)
  {
    var e := rows[k].email;
    var existing := Loaded(imp, db, rows).Keys;
    CompletedImport(around, imp, db, rows, o, db', e);
    forall i | 0 <= i < |rows|
      ensures TargetOf(imp, existing, rows[i]) == Existing(e) <==> IsAbout(imp, db, rows[i], e)
    {
      TargetIs(imp, db, rows, i, e);
    }
    hide Imports, Loaded, TargetOf;
    assert LastFor(imp, existing, rows, Existing(e)) == Some(k);
  }

  /** And of a new account: it has those of the last row that makes it, belongs to the importing owner
      and cluster, and is an owner's. */
  lemma CompletedImportCreates(around: Surroundings, imp: Import, db: Table, rows: seq<Row>, o: Outcome, db': Table,
                               k: nat, e: string)
    requires Imports(around, imp, db, rows, o, db') && o.Built?
    requires k < |rows| && e !in db && IsNewAs(imp, db, rows[k], e)
    requires forall i :: k < i < |rows| ==> !IsNewAs(imp, db, rows[i], e)
    ensures e in db'
    ensures db'[e] == Resident(imp.rules.name(rows[k].name).value, PhoneOf(imp.rules, rows[k].phone),
                               imp.ownerId, imp.clusterId, true)
  {
    var existing := Loaded(imp, db, rows).Keys;
    CompletedImport(around, imp, db, rows, o, db', e);
    forall i | 0 <= i < |rows|
      ensures TargetOf(imp, existing, rows[i]) == New(e) <==> IsNewAs(imp, db, rows[i], e)
    {
      TargetIs(imp, db, rows, i, e);
    }
    hide Imports, Loaded, TargetOf, IsNewAs;
    assert LastFor(imp, existing, rows, New(e)) == Some(k);
  }

  /** Accounts that no row of the file is about, or makes, are as they were. */
  lemma CompletedImportKeepsOthers(around: Surroundings, imp: Import, db: Table, rows: seq<Row>, o: Outcome, db': Table,
                                   e: string)
    requires Imports(around, imp, db, rows, o, db') && o.Built?
    requires forall i :: 0 <= i < |rows| ==> !IsAbout(imp, db, rows[i], e)
    ensures e in db ==> e in db' && db'[e] == db[e]
    ensures e !in db && (forall i :: 0 <= i < |rows| ==> !IsNewAs(imp, db, rows[i], e)) ==> e !in db'
  {
    var existing := Loaded(imp, db, rows).Keys;
    CompletedImport(around, imp, db, rows, o, db', e);
    forall i | 0 <= i < |rows|
      ensures TargetOf(imp, existing, rows[i]) == Existing(e) <==> IsAbout(imp, db, rows[i], e)
      ensures TargetOf(imp, existing, rows[i]) == New(e) <==> IsNewAs(imp, db, rows[i], e)
    {
      TargetIs(imp, db, rows, i, e);
    }
    hide Imports, Loaded, TargetOf, IsNewAs, IsAbout;
  }

  lemma TargetIs(imp: Import, db: Table, rows: seq<Row>, i: nat, e: string)
    requires i < |rows|
    ensures var existing := Loaded(imp, db, rows).Keys;
            && (TargetOf(imp, existing, rows[i]) == Existing(e) <==> IsAbout(imp, db, rows[i], e))
            && (TargetOf(imp, existing, rows[i]) == New(e) <==> IsNewAs(imp, db, rows[i], e))
  {
    assert rows[i].email in Emails(rows);
  }

  /** What is wrong with data row i of a file: a validator's complaint about a cell, under that cell; a
      phone number without dialing code, under an empty title; or the name of an earlier row. */
  predicate RowHasError(rules: Rules, rows: seq<Row>, i: int, title: string, description: string)
    requires 0 <= i < |rows|
  {
    var row := rows[i];
    || (title == row.name && description in rules.name(row.name).errors)
    || (title == row.email && description in rules.email(row.email).errors)
    || (row.phone == "" && rules.dialingCode != "" && title == "" && description in rules.phone("").errors)
    || ("+" <= row.phone && title == row.phone && description in rules.phone(row.phone).errors)
    || (row.phone != "" && !("+" <= row.phone) && rules.dialingCode != "" && title == row.phone
        && description in rules.phone(rules.dialingCode + row.phone).errors)
    || (!("+" <= row.phone) && rules.dialingCode == "" && title == "" && description == CODE_MISSING)
    || (title == row.name && description == NAME_REPEATED && exists j :: 0 <= j < i && rows[j].name == row.name)
  }

  lemma ErrorsMember(descriptions: seq<string>, rowNumber: int, title: string, e: RowError)
    ensures e in Errors(descriptions, rowNumber, title) <==>
              e.rowNumber == rowNumber && e.title == title && e.description in descriptions
  {
    var errors := Errors(descriptions, rowNumber, title);
    if e.rowNumber == rowNumber && e.title == title && e.description in descriptions {
      var i :| 0 <= i < |descriptions| && descriptions[i] == e.description;
      assert errors[i] == e;
    }
  }

  lemma ErrorsOfRowAre(rules: Rules, rows: seq<Row>, i: nat, rowNumber: int, e: RowError)
    requires i < |rows|
    ensures e in ErrorsOfRow(rules, rows[..i], rows[i], rowNumber) <==>
              e.rowNumber == rowNumber && RowHasError(rules, rows, i, e.title, e.description)
  {
    var row := rows[i];
    ErrorsMember(rules.name(row.name).errors, rowNumber, row.name, e);
    ErrorsMember(rules.email(row.email).errors, rowNumber, row.email, e);
    ErrorsMember(PhoneVerdict(rules, row.phone).errors, rowNumber, PhoneTitle(rules, row.phone), e);
    assert row.name in Names(rows[..i]) <==> exists j :: 0 <= j < i && rows[j].name == row.name;
  }

  /** Whatever the surroundings: an import is refused exactly when some row has an error, and then it
      lists each error of each row under that row's line of the file, and no others. */
  lemma RefusedWithEveryError(around: Surroundings, imp: Import, db: Table, rows: seq<Row>, o: Outcome, db': Table,
                              e: RowError)
    requires Imports(around, imp, db, rows, o, db')
    ensures o.Refused? ==> db' == db
    ensures o.Refused? && e in o.errors <==>
              exists i :: 0 <= i < |rows| && e.rowNumber == (if imp.hasHeaders then i + 2 else i + 1)
                       && RowHasError(imp.rules, rows, i, e.title, e.description)
    ensures o.Refused? ==> |o.errors| > 0
  {
    AllErrorsAreTheRowsErrors(imp.rules, rows, imp.Offset(), e);
    forall i | 0 <= i < |rows|
      ensures e in ErrorsOfRow(imp.rules, rows[..i], rows[i], imp.Offset() + i) <==>
                e.rowNumber == imp.Offset() + i && RowHasError(imp.rules, rows, i, e.title, e.description)
    {
      ErrorsOfRowAre(imp.rules, rows, i, imp.Offset() + i, e);
    }
    hide AllErrors, ErrorsOfRow, RowHasError, FoldRows, Raises;
  }

  /** As intended, every file without row errors completes. */
  lemma IntendedImportCompletes(imp: Import, db: Table, rows: seq<Row>, o: Outcome, db': Table)
    requires Imports(INTENDED, imp, db, rows, o, db')
    ensures o.Built? <==> AllErrors(imp.rules, rows, imp.Offset()) == []
  {
  }

  lemma {:induction false} KnownRowsWithoutUpsert(imp: Import, db: Table, file: seq<Row>, rows: seq<Row>)
    requires !imp.shouldUpsert && !HasUnknown(Loaded(imp, db, file).Keys, rows)
    ensures FoldRows(imp, db, file, rows) == db
  {
    hide Loaded;
    if |rows| > 0 {
      KnownRowsWithoutUpsert(imp, db, file, rows[..|rows| - 1]);
      assert rows[|rows| - 1] in rows;
    }
  }

  /** As written, an import completes if and only if no row has an error, every row names a resident
      of the owner, and nothing is to be updated; it never changes the database at all. */
  lemma ImportAsWritten(imp: Import, db: Table, rows: seq<Row>, o: Outcome, db': Table)
    requires Imports(AS_WRITTEN, imp, db, rows, o, db')
    ensures o.Built? <==> && AllErrors(imp.rules, rows, imp.Offset()) == []
                          && !imp.shouldUpsert
                          && forall row :: row in rows ==> row.email in Loaded(imp, db, rows)
    ensures o.Refused? <==> AllErrors(imp.rules, rows, imp.Offset()) != []
    ensures db' == db
  {
    hide AllErrors, Loaded, FoldRows;
    if o.Built? {
      KnownRowsWithoutUpsert(imp, db, rows, rows);
    }
  }

  function AcceptingRules(): Rules {
    var accept := (s: string) => Verdict([], s);
    Rules(accept, accept, accept, "", (s: string) => if s == "a@X" then "a@x" else s)
  }

  lemma OneRowIsAccepted(imp: Import, row: Row)
    requires imp.rules == AcceptingRules() && "+" <= row.phone
    ensures AllErrors(imp.rules, [row], imp.Offset()) == []
  {
    assert [row][..0] == [];
    assert AllErrors(imp.rules, [], imp.Offset()) == [];
  }

  /** Two files that fail as written: a new address, and an upsert of a known one. */
  lemma ImportsThatRaise()
    ensures forall o, db' ::
              Imports(AS_WRITTEN, Import(AcceptingRules(), "owner", "cluster", false, true), map[],
                      [Row("new", "b@x", "+2")], o, db')
              ==> o == Raised && db' == map[]
    ensures var db := map["a@x" := Resident("old", "1", "owner", "cluster", true)];
            forall o, db' ::
              Imports(AS_WRITTEN, Import(AcceptingRules(), "owner", "cluster", true, true), db,
                      [Row("new", "a@x", "+2")], o, db')
              ==> o == Raised && db' == db
  {
    var plain := Import(AcceptingRules(), "owner", "cluster", false, true);
    var upsert := Import(AcceptingRules(), "owner", "cluster", true, true);
    OneRowIsAccepted(plain, Row("new", "b@x", "+2"));
    OneRowIsAccepted(upsert, Row("new", "a@x", "+2"));
    assert Row("new", "b@x", "+2") in [Row("new", "b@x", "+2")];
    assert Loaded(plain, map[], [Row("new", "b@x", "+2")]) == map[];
    assert Raises(AS_WRITTEN, plain, map[], [Row("new", "b@x", "+2")]);
  }

  /** Even as intended, an accepted row can be lost: an upsert whose raw address differs from the
      stored one only in what normalisation removes neither updates the resident nor creates an account. */
  lemma RowCanBeLost()
    ensures exists imp: Import, db: Table, row: Row ::
              && imp.shouldUpsert
              && (forall o, db' :: Imports(INTENDED, imp, db, [row], o, db') ==> o.Built? && db' == db)
              && imp.rules.normalize(row.email) in db && db[imp.rules.normalize(row.email)].ownerId == imp.ownerId
              && db[imp.rules.normalize(row.email)].name != row.name
  {
    var imp := Import(AcceptingRules(), "owner", "cluster", true, true);
    var db := map["a@x" := Resident("old", "1", "owner", "cluster", true)];
    var row := Row("new", "a@X", "+2");
    OneRowIsAccepted(imp, row);
    assert [row][..0] == [];
    assert Loaded(imp, db, [row]) == map[];
    assert FoldRows(imp, db, [row], []) == db;
    assert FoldRows(imp, db, [row], [row]) == db;
    assert forall o, db' :: Imports(INTENDED, imp, db, [row], o, db') ==> o.Built? && db' == db;
    assert imp.rules.normalize(row.email) == "a@x";
    assert db["a@x"].name != row.name;
  }
}
