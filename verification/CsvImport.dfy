/**
  The CSV upsert of residents. Cells may be missing from a short row or from the header, and the
  database refuses a value that is too long for its column or contains a NUL character: inside the
  savepoint of `get_or_create` that fails the row alone, in the later `save` of an existing resident it
  marks the whole transaction for rollback.
 */
module CsvImport {
  import opened Prelude
  import opened Text

  const DEFAULT_PHONE := "+2340000000000"
  const NAME_LENGTH := 255
  const EMAIL_LENGTH := 100
  const PHONE_LENGTH := 16

  /** A cell of `csv.DictReader`: no such column, a row too short for it, or its text. */
  datatype Cell = NoColumn | NoValue | Value(text: string)

  datatype Row = Row(email: Cell, name: Cell, phone: Cell, unitAddress: Cell)

  datatype Resident = Resident(
    name: string,
    phone: string,
    unitAddress: string,
    clusters: set<string>,
    primaryCluster: Option<string>)

  type Table = map<string, Resident>

  /** `row.get(column, '').strip()`; None when it raises, because the value is None. */
  function Cleaned(c: Cell): Option<string> {
    match c
    case NoColumn => Some("")
    case NoValue => None
    case Value(text) => Some(Strip(text))
  }

  datatype Result = Created(email: string) | Updated(email: string) | Failed

  predicate HasNul(s: string) {
    '\0' in s
  }

  /** Columns that the database accepts. */
  predicate Storable(email: string, r: Resident) {
    && |email| <= EMAIL_LENGTH && |r.name| <= NAME_LENGTH && |r.phone| <= PHONE_LENGTH
    && !HasNul(r.name) && !HasNul(r.phone) && !HasNul(r.unitAddress)
  }

  // ---------------------------------------------------------------- one row

  /** Email and name of a row that gets as far as the database. */
  predicate Complete(row: Row) {
    && Cleaned(row.email).Some? && Cleaned(row.email).value != ""
    && Cleaned(row.name).Some? && Cleaned(row.name).value != ""
    && Cleaned(row.phone).Some? && Cleaned(row.unitAddress).Some?
  }

  function NewResident(row: Row, cluster: string): Resident
    requires Complete(row)
  {
    var phone := Cleaned(row.phone).value;
    Resident(Cleaned(row.name).value, if phone == "" then DEFAULT_PHONE else phone, Cleaned(row.unitAddress).value,
             {cluster}, Some(cluster))
  }

  function Merged(r: Resident, row: Row, cluster: string): Resident
    requires Complete(row)
  {
    var phone, unitAddress := Cleaned(row.phone).value, Cleaned(row.unitAddress).value;
    Resident(Cleaned(row.name).value, if phone == "" then r.phone else phone,
             if unitAddress == "" then r.unitAddress else unitAddress, r.clusters + {cluster}, r.primaryCluster)
  }

  /** The transaction: the table as this request sees it, and whether it has been aborted. */
  datatype Work = Work(table: Table, aborted: bool)

  function Process(w: Work, row: Row, cluster: string): (Result, Work) {
    if !Complete(row) || w.aborted || HasNul(Cleaned(row.email).value) then (Failed, w)
    else
      var email := Cleaned(row.email).value;
      if email in w.table then
        var r := Merged(w.table[email], row, cluster);
        if Storable(email, r) then (Updated(email), w.(table := w.table[email := r]))
        else (Failed, w.(aborted := true))
      else
        var r := NewResident(row, cluster);
        if Storable(email, r) then (Created(email), w.(table := w.table[email := r])) else (Failed, w)
  }

  // ---------------------------------------------------------------- all rows

  function Results(w: Work, rows: seq<Row>, cluster: string): (rs: seq<Result>)
    ensures |rs| == |rows|
  {
    if |rows| == 0 then []
    else
      var n := |rows| - 1;
      Results(w, rows[..n], cluster) + [Process(After(w, rows[..n], cluster), rows[n], cluster).0]
  }

  function After(w: Work, rows: seq<Row>, cluster: string): Work {
    if |rows| == 0 then w
    else
      var n := |rows| - 1;
      Process(After(w, rows[..n], cluster), rows[n], cluster).1
  }

  /** What is stored when the request ends: an aborted transaction stores nothing. */
  function Committed(db: Table, rows: seq<Row>, cluster: string): Table {
    var w := After(Work(db, false), rows, cluster);
    if w.aborted then db else w.table
  }

  datatype Summary = Summary(created: nat, updated: nat, errors: seq<int>)

  function Counted(s: Summary, r: Result, line: int): Summary {
    match r
    case Created(_) => s.(created := s.created + 1)
    case Updated(_) => s.(updated := s.updated + 1)
    case Failed => s.(errors := s.errors + [line])
  }

  /** Counts the results; line 1 of the file is the header, so the last result is of line |rs| + 1. */
  function Tally(rs: seq<Result>): Summary {
    if |rs| == 0 then Summary(0, 0, []) else Counted(Tally(rs[..|rs| - 1]), rs[|rs| - 1], |rs| + 1)
  }

  /** The loop's bookkeeping for row i. */
  lemma OneMoreRow(w: Work, rows: seq<Row>, cluster: string, i: nat)
    requires i < |rows|
    ensures var (r, after) := Process(After(w, rows[..i], cluster), rows[i], cluster);
            && After(w, rows[..i + 1], cluster) == after
            && Tally(Results(w, rows[..i + 1], cluster)) == Counted(Tally(Results(w, rows[..i], cluster)), r, i + 2)
  {
    assert rows[..i + 1][..i] == rows[..i];
    var rs := Results(w, rows[..i], cluster);
    var r := Process(After(w, rows[..i], cluster), rows[i], cluster).0;
    assert Results(w, rows[..i + 1], cluster) == rs + [r];
    assert (rs + [r])[..i] == rs;
  }

  class ResidentImporter {
    const cluster: string
    var table: Table
    var aborted: bool

    ghost function State(): Work
      reads this
    {
      Work(table, aborted)
    }

    constructor (db: Table, cluster: string)
      ensures State() == Work(db, false) && this.cluster == cluster
    {
      this.cluster := cluster;
      table, aborted := db, false;
    }

    method ProcessRow(row: Row) returns (r: Result)
      modifies this
      ensures (r, State()) == Process(old(State()), row, cluster)
    {
      var email := Cleaned(row.email);
      if email.None? || email.value == "" {
        return Failed;
      }
      var name := Cleaned(row.name);
      if name.None? || name.value == "" {
        return Failed;
      }
      var phone, unitAddress := Cleaned(row.phone), Cleaned(row.unitAddress);
      if phone.None? || unitAddress.None? {
        return Failed;
      }
      if aborted || HasNul(email.value) {
        return Failed;  // the look-up by address raises
      }
      if email.value !in table {
        var resident := Resident(name.value, if phone.value == "" then DEFAULT_PHONE else phone.value,
                                 unitAddress.value, {}, None);
        if !Storable(email.value, resident) {
          return Failed;
        }
        resident := resident.(clusters := {cluster}, primaryCluster := Some(cluster));
        table := table[email.value := resident];
        return Created(email.value);
      }
      var resident := table[email.value].(name := name.value);
      if phone.value != "" {
        resident := resident.(phone := phone.value);
      }
      if unitAddress.value != "" {
        resident := resident.(unitAddress := unitAddress.value);
      }
      if !Storable(email.value, resident) {
        aborted := true;
        return Failed;
      }
      if cluster !in resident.clusters {
        resident := resident.(clusters := resident.clusters + {cluster});
      }
      assert resident.clusters == table[email.value].clusters + {cluster};
      table := table[email.value := resident];
      r := Updated(email.value);
    }

    method ImportCsv(rows: seq<Row>) returns (s: Summary)
      modifies this
      ensures State() == After(old(State()), rows, cluster)
      ensures s == Tally(Results(old(State()), rows, cluster))
    {
      s := Summary(0, 0, []);
      assert rows[..0] == [];
      assert State() == After(old(State()), rows[..0], cluster);
      assert s == Tally(Results(old(State()), rows[..0], cluster));
      hide Process, After, Results, Tally;
      for i := 0 to |rows|
        invariant State() == After(old(State()), rows[..i], cluster)
        invariant s == Tally(Results(old(State()), rows[..i], cluster))
      {
        OneMoreRow(old(State()), rows, cluster, i);
        var r := ProcessRow(rows[i]);
        match r {
          case Created(_) => s := s.(created := s.created + 1);
          case Updated(_) => s := s.(updated := s.updated + 1);
          case Failed => s := s.(errors := s.errors + [i + 2]);
        }
      }
      assert rows[..|rows|] == rows;
    }
  }

  // ---------------------------------------------------------------- conservation

  /** Every row is counted once: created, updated and errors add up to the number of rows, and the
      errors name exactly the lines of the failed rows. */
  lemma {:induction false} RowsAreConserved(rs: seq<Result>)
    ensures Tally(rs).created + Tally(rs).updated + |Tally(rs).errors| == |rs|
    ensures forall l :: l in Tally(rs).errors <==> 2 <= l <= |rs| + 1 && rs[l - 2].Failed?
  {
    if |rs| > 0 {
      RowsAreConserved(rs[..|rs| - 1]);
    }
  }

  /** Nothing a resident had is lost: residents, memberships and the primary cluster stay. */
  ghost predicate Extends(before: Table, after: Table) {
    forall e :: e in before ==>
      && e in after
      && before[e].clusters <= after[e].clusters
      && after[e].primaryCluster == before[e].primaryCluster
  }

  lemma {:induction false} ImportOnlyExtends(w: Work, rows: seq<Row>, cluster: string)
    ensures Extends(w.table, After(w, rows, cluster).table)
    ensures w.aborted ==> After(w, rows, cluster).aborted
  {
    if |rows| > 0 {
      var n := |rows| - 1;
      ImportOnlyExtends(w, rows[..n], cluster);
      StepExtends(After(w, rows[..n], cluster), rows[n], cluster);
    }
  }

  lemma StepExtends(w: Work, row: Row, cluster: string)
    ensures var (r, after) := Process(w, row, cluster);
            && Extends(w.table, after.table)
            && (w.aborted ==> after.aborted)
            && (r != Failed ==> r.email in after.table && cluster in after.table[r.email].clusters)
            && (r.Created? ==> r.email !in w.table && after.table[r.email].primaryCluster == Some(cluster))
  {
  }

  /** As the request sees it, the resident of every row that did not fail is in the cluster. */
  lemma {:induction false} SuccessfulRowsAreMembers(w: Work, rows: seq<Row>, cluster: string, i: nat)
    requires i < |rows| && Results(w, rows, cluster)[i] != Failed
    ensures var after := After(w, rows, cluster).table;
            var e := Results(w, rows, cluster)[i].email;
            e in after && cluster in after[e].clusters
  {
    var n := |rows| - 1;
    StepExtends(After(w, rows[..n], cluster), rows[n], cluster);
    if i < n {
      SuccessfulRowsAreMembers(w, rows[..n], cluster, i);
    }
  }

  /** A row that gives an existing resident a value the database refuses. */
  predicate Unstorable(w: Work, row: Row, cluster: string) {
    && Complete(row) && !HasNul(Cleaned(row.email).value) && Cleaned(row.email).value in w.table
    && !Storable(Cleaned(row.email).value, Merged(w.table[Cleaned(row.email).value], row, cluster))
  }

  lemma StepAborts(w: Work, row: Row, cluster: string)
    ensures Process(w, row, cluster).1.aborted <==> w.aborted || Unstorable(w, row, cluster)
  {
  }

  ghost predicate UnstorableAt(db: Table, rows: seq<Row>, cluster: string, i: int) {
    0 <= i < |rows| && Unstorable(After(Work(db, false), rows[..i], cluster), rows[i], cluster)
  }

  lemma UnstorableInPrefix(db: Table, rows: seq<Row>, cluster: string, i: int)
    requires |rows| > 0
    ensures UnstorableAt(db, rows[..|rows| - 1], cluster, i) <==> i < |rows| - 1 && UnstorableAt(db, rows, cluster, i)
    ensures UnstorableAt(db, rows, cluster, i) ==> i <= |rows| - 1
  {
    if 0 <= i < |rows| - 1 {
      assert rows[..|rows| - 1][..i] == rows[..i];
    }
  }

  lemma LastRowAborts(db: Table, rows: seq<Row>, cluster: string)
    requires |rows| > 0
    ensures After(Work(db, false), rows, cluster).aborted <==>
              || After(Work(db, false), rows[..|rows| - 1], cluster).aborted
              || UnstorableAt(db, rows, cluster, |rows| - 1)
  {
    StepAborts(After(Work(db, false), rows[..|rows| - 1], cluster), rows[|rows| - 1], cluster);
  }

  /** The transaction is aborted exactly when some row gives an existing resident a value the database refuses. */
  lemma {:induction false} AbortedIff(db: Table, rows: seq<Row>, cluster: string)
    ensures After(Work(db, false), rows, cluster).aborted <==> exists i :: UnstorableAt(db, rows, cluster, i)
  {
    if |rows| > 0 {
      var before := rows[..|rows| - 1];
      AbortedIff(db, before, cluster);
      LastRowAborts(db, rows, cluster);
      hide UnstorableAt, After;
      forall i
        ensures UnstorableAt(db, rows, cluster, i) <==>
                  || UnstorableAt(db, before, cluster, i)
                  || (i == |rows| - 1 && UnstorableAt(db, rows, cluster, |rows| - 1))
      {
        UnstorableInPrefix(db, rows, cluster, i);
      }
    }
  }

  /** Without an abort, every resident of a row reported without error is a stored member. */
  lemma ReportedRowsAreStored(db: Table, rows: seq<Row>, cluster: string, i: nat)
    requires i < |rows| && Results(Work(db, false), rows, cluster)[i] != Failed
    requires !After(Work(db, false), rows, cluster).aborted
    ensures var e := Results(Work(db, false), rows, cluster)[i].email;
            e in Committed(db, rows, cluster) && cluster in Committed(db, rows, cluster)[e].clusters
  {
    SuccessfulRowsAreMembers(Work(db, false), rows, cluster, i);
  }

  /** In any case the stored table only extends the old one. */
  lemma StoredTableOnlyExtends(db: Table, rows: seq<Row>, cluster: string)
    ensures Extends(db, Committed(db, rows, cluster))
  {
    ImportOnlyExtends(Work(db, false), rows, cluster);
  }

  lemma {:induction false} CreatedWasAbsent(db: Table, rows: seq<Row>, cluster: string, i: nat)
    requires i < |rows| && Results(Work(db, false), rows, cluster)[i].Created?
    ensures Results(Work(db, false), rows, cluster)[i].email !in db
  {
    var n := |rows| - 1;
    if i < n {
      CreatedWasAbsent(db, rows[..n], cluster, i);
    } else {
      ImportOnlyExtends(Work(db, false), rows[..n], cluster);
      StepExtends(After(Work(db, false), rows[..n], cluster), rows[n], cluster);
    }
  }

  /** A resident reported as created is stored exactly when no row is unstorable; otherwise the
      whole import is rolled back although the response still reports it. */
  lemma CreatedIsStoredIff(db: Table, rows: seq<Row>, cluster: string, i: nat)
    requires i < |rows| && Results(Work(db, false), rows, cluster)[i].Created?
    ensures Results(Work(db, false), rows, cluster)[i].email in Committed(db, rows, cluster)
            <==> !exists k :: UnstorableAt(db, rows, cluster, k)
  {
    AbortedIff(db, rows, cluster);
    CreatedWasAbsent(db, rows, cluster, i);
    SuccessfulRowsAreMembers(Work(db, false), rows, cluster, i);
  }

  /** Such a file: the second row puts a NUL into a known resident's name, so the resident that the
      first row is reported to have created is not stored. */
  lemma CreatedButNotStored(db: Table, cluster: string)
    requires "a@x" in db && "b@x" !in db
    ensures var rows := [Row(Value("b@x"), Value("b"), Value("1"), Value("u")),
                         Row(Value("a@x"), Value("a\0a"), Value("2"), Value("v"))];
            && Results(Work(db, false), rows, cluster) == [Created("b@x"), Failed]
            && "b@x" !in Committed(db, rows, cluster)
  {
    var first := Row(Value("b@x"), Value("b"), Value("1"), Value("u"));
    var second := Row(Value("a@x"), Value("a\0a"), Value("2"), Value("v"));
    var rows := [first, second];
    assert "a\0a"[1] == '\0';
    var w := Process(Work(db, false), first, cluster).1;
    assert Process(Work(db, false), first, cluster).0 == Created("b@x");
    assert Process(w, second, cluster) == (Failed, w.(aborted := true));
    assert rows[..1] == [first] && rows[..1][..0] == [] && [first][..0] == [];
    assert After(Work(db, false), rows[..1], cluster) == w;
    assert Results(Work(db, false), rows[..1], cluster) == [Created("b@x")];
  }

  // ---------------------------------------------------------------- what a row stores

  /** The cell reads as `text`: it has no column, or its text without surrounding white space. */
  predicate Reads(c: Cell, text: string) {
    (c.NoColumn? && text == "") || (c.Value? && Strip(c.text) == text)
  }

  /** A row too short for one of the four columns fails and changes nothing. */
  lemma ShortRowFails(w: Work, row: Row, cluster: string)
    requires row.email.NoValue? || row.name.NoValue? || row.phone.NoValue? || row.unitAddress.NoValue?
    ensures Process(w, row, cluster) == (Failed, w)
  {
  }

  /** A row without an address or a name, or after a failure that marked the transaction, changes nothing. */
  lemma EmptyRowFails(w: Work, row: Row, cluster: string)
    requires w.aborted || Reads(row.email, "") || Reads(row.name, "")
    ensures Process(w, row, cluster) == (Failed, w)
  {
  }

  predicate Accepts(e: string, n: string, p: string, u: string) {
    && |e| <= 100 && |n| <= 255 && |p| <= 16
    && '\0' !in e && '\0' !in n && '\0' !in p && '\0' !in u
  }

  /** A row with an unknown address creates a resident with the values of the row, a default phone number
      if it gives none, in the importing cluster only, if the database accepts them. */
  lemma NewRowStores(w: Work, row: Row, cluster: string, e: string, n: string, p: string, u: string)
    requires Reads(row.email, e) && Reads(row.name, n) && Reads(row.phone, p) && Reads(row.unitAddress, u)
    requires !w.aborted && e != "" && n != "" && e !in w.table
    ensures var phone := if p == "" then "+2340000000000" else p;
            Process(w, row, cluster) ==
              if Accepts(e, n, phone, u)
              then (Created(e), Work(w.table[e := Resident(n, phone, u, {cluster}, Some(cluster))], false))
              else (Failed, w)
  {
  }

  /** A row with a known address sets the name, sets phone number and unit address if it gives them, and
      adds the cluster; if the database refuses that, the transaction is marked for rollback. */
  lemma KnownRowStores(w: Work, row: Row, cluster: string, e: string, n: string, p: string, u: string)
    requires Reads(row.email, e) && Reads(row.name, n) && Reads(row.phone, p) && Reads(row.unitAddress, u)
    requires !w.aborted && e != "" && n != "" && e in w.table && '\0' !in e
    ensures var was := w.table[e];
            var phone := if p == "" then was.phone else p;
            var unitAddress := if u == "" then was.unitAddress else u;
            Process(w, row, cluster) ==
              if Accepts(e, n, phone, unitAddress)
              then (Updated(e), Work(w.table[e := Resident(n, phone, unitAddress, was.clusters + {cluster},
                                                           was.primaryCluster)], false))
              else (Failed, Work(w.table, true))
  {
  }

  lemma StepKeepsOthers(w: Work, row: Row, cluster: string, e: string)
    requires var r := Process(w, row, cluster).0; r == Failed || r.email != e
    ensures var after := Process(w, row, cluster).1.table;
            (e in after <==> e in w.table) && (e in w.table ==> after[e] == w.table[e])
  {
  }

  /** The last row about a resident that did not fail decides: later rows leave what it stored. */
  lemma {:induction false} LastSuccessStays(w: Work, rows: seq<Row>, cluster: string, i: nat)
    requires i < |rows| && Results(w, rows, cluster)[i] != Failed
    requires var rs := Results(w, rows, cluster);
             forall j :: i < j < |rows| ==> rs[j] == Failed || rs[j].email != rs[i].email
    ensures var e := Results(w, rows, cluster)[i].email;
            var stored := Process(After(w, rows[..i], cluster), rows[i], cluster).1.table;
            && e in stored && e in After(w, rows, cluster).table
            && After(w, rows, cluster).table[e] == stored[e]
  {
    var n := |rows| - 1;
    var last := After(w, rows[..n], cluster);
    var before, all := Results(w, rows[..n], cluster), Results(w, rows, cluster);
    StepExtends(last, rows[n], cluster);
    hide Process;
    var r := Process(last, rows[n], cluster).0;
    assert all == before + [r];
    assert all[n] == r && forall j :: 0 <= j < n ==> all[j] == before[j];
    hide Results;
    if i < n {
      assert r == Failed || r.email != before[i].email;
      assert rows[..n][..i] == rows[..i];
      LastSuccessStays(w, rows[..n], cluster, i);
      StepKeepsOthers(last, rows[n], cluster, before[i].email);
    }
  }
}
