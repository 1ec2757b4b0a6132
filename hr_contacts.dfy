/** `read_hr_contacts`: turns the rows of an HR contact CSV file, as
    `csv.DictReader` yields them, into a list of normalised contacts. A bad
    row is skipped and the rest are still read; an exception while reading
    ends the read and returns the contacts accepted so far. */
module HrContacts {
  import opened Strings

  /** The columns the header must hold, in the order the rows are checked. */
  const RequiredFields: seq<string> := ["name", "email", "company"]

  /** A contact as the campaign receives it. */
  datatype Contact = Contact(name: string, email: string, company: string)

  /** The value `csv.DictReader` stores under a column: the text of the
      field, or `None` (`Missing`) when the line had fewer fields than the
      header has columns. */
  datatype Cell = Text(text: string) | Missing

  /** One row from `csv.DictReader`: column name to value, and the surplus
      fields of a line longer than the header (which the reader stores as a
      list under the key `None`; an empty list means there were none). */
  datatype Row = Row(cells: map<string, Cell>, surplus: seq<string>)

  /** An opened CSV file: the header's column names and the rows after it. */
  datatype CsvTable = CsvTable(header: seq<string>, rows: seq<Row>)

  datatype SkipReason =
    | EmptyRow
    | MissingFields(fields: seq<string>)
    | InvalidEmail(email: string)

  /** What reading one row does: skip it, accept a contact, or raise (and so
      end the whole read). */
  datatype RowOutcome = Skipped(reason: SkipReason) | Accepted(contact: Contact) | Raised

  predicate HasRequiredColumns(header: seq<string>) {
    forall f :: f in RequiredFields ==> f in header
  }

  /** `row.get(field, '')`. */
  function Get(row: Row, field: string): Cell {
    if field in row.cells then row.cells[field] else Text("")
  }

  /** `any(row.values())`: some value is a non-empty string, or the row has
      surplus fields (a non-empty list is truthy even if its strings are
      empty). `None` is falsy. */
  predicate AnyValue(row: Row) {
    row.surplus != [] || exists k :: k in row.cells && row.cells[k].Text? && row.cells[k].text != ""
  }

  /** Some required field holds `None`, on which `.strip()` raises. */
  predicate HasNoneField(row: Row) {
    exists f :: f in RequiredFields && Get(row, f) == Missing
  }

  predicate IsBlank(row: Row, field: string)
    requires Get(row, field).Text?
  {
    Strip(Get(row, field).text) == []
  }

  /** The fields of `fields` that are blank after stripping, in order. */
  function BlankFields(row: Row, fields: seq<string>): (blank: seq<string>)
    requires forall f :: f in fields ==> Get(row, f).Text?
    ensures forall f :: f in blank <==> f in fields && IsBlank(row, f)
  {
    if fields == [] then []
    else (if IsBlank(row, fields[0]) then [fields[0]] else []) + BlankFields(row, fields[1..])
  }

  /** What the loader promises of every contact it returns: name and company
      are stripped and non-empty; the email is stripped, has no capital
      letter and holds both an '@' and a '.'. */
  predicate IsNormalized(c: Contact) {
    && c.name != [] && NoEdgeSpace(c.name)
    && c.company != [] && NoEdgeSpace(c.company)
    && NoEdgeSpace(c.email) && NoUpper(c.email)
    && '@' in c.email && '.' in c.email
  }

  /** The contact a row yields once its required fields are non-blank text. */
  function Normalize(row: Row): (c: Contact)
    requires forall f :: f in RequiredFields ==> Get(row, f).Text?
    requires BlankFields(row, RequiredFields) == []
    ensures c.name != [] && NoEdgeSpace(c.name) && c.company != [] && NoEdgeSpace(c.company)
    ensures NoEdgeSpace(c.email) && NoUpper(c.email)
    ensures c.name == Strip(Get(row, "name").text) && c.company == Strip(Get(row, "company").text)
    ensures c.email == Lower(Strip(Get(row, "email").text))
  {
    assert !IsBlank(row, "name") && !IsBlank(row, "company");
    var email := Strip(Get(row, "email").text);
    LowerKeepsEdges(email);
    Contact(Strip(Get(row, "name").text), Lower(email), Strip(Get(row, "company").text))
  }

  /** The loop body of `read_hr_contacts` for one row. */
  function Classify(row: Row): (r: RowOutcome)
    ensures r == Skipped(EmptyRow) <==> !AnyValue(row)
    ensures r.Raised? <==> AnyValue(row) && HasNoneField(row)
    ensures r.Accepted? ==> IsNormalized(r.contact)
    ensures r.Skipped? && r.reason.MissingFields? ==>
      r.reason.fields != [] && forall f :: f in r.reason.fields ==> f in RequiredFields && IsBlank(row, f)
    ensures r.Accepted? ==>
      && (forall f :: f in RequiredFields ==> Get(row, f).Text?)
      && BlankFields(row, RequiredFields) == []
      && r.contact == Normalize(row)
    ensures AnyValue(row) && !HasNoneField(row) && BlankFields(row, RequiredFields) != [] ==>
      r == Skipped(MissingFields(BlankFields(row, RequiredFields)))
    ensures AnyValue(row) && !HasNoneField(row) && BlankFields(row, RequiredFields) == [] ==>
      (r.Accepted? <==> '@' in Normalize(row).email && '.' in Normalize(row).email)
  {
    if !AnyValue(row) then Skipped(EmptyRow)
    else if HasNoneField(row) then Raised
    else
      var blank := BlankFields(row, RequiredFields);
      if blank != [] then Skipped(MissingFields(blank))
      else
        var c := Normalize(row);
        if '@' !in c.email || '.' !in c.email then Skipped(InvalidEmail(c.email))
        else Accepted(c)
  }

  /** The contacts of a run of row outcomes: the accepted ones, in order, up
      to the first outcome that raised. */
  function Collect(outcomes: seq<RowOutcome>): (cs: seq<Contact>)
    ensures |cs| <= |outcomes|
    ensures forall c :: c in cs ==> Accepted(c) in outcomes
  {
    if outcomes == [] then []
    else match outcomes[0]
      case Raised => []
      case Skipped(_) => Collect(outcomes[1..])
      case Accepted(c) => [c] + Collect(outcomes[1..])
  }

  predicate NoRaise(outcomes: seq<RowOutcome>) {
    forall i :: 0 <= i < |outcomes| ==> !outcomes[i].Raised?
  }

  /** The outcome of each row, in file order. */
  function Outcomes(rows: seq<Row>): (outcomes: seq<RowOutcome>)
    ensures |outcomes| == |rows|
    ensures forall i :: 0 <= i < |rows| ==> outcomes[i] == Classify(rows[i])
  {
    seq(|rows|, i requires 0 <= i < |rows| => Classify(rows[i]))
  }

  lemma OutcomesAppend(a: seq<Row>, b: seq<Row>)
    ensures Outcomes(a + b) == Outcomes(a) + Outcomes(b)
  {
  }

  /** The contacts `read_hr_contacts` accepts from the rows of a file whose
      header is complete: never more than there are rows, each one
      normalised. */
  function ContactsOf(rows: seq<Row>): (cs: seq<Contact>)
    ensures |cs| <= |rows|
    ensures forall c :: c in cs ==> IsNormalized(c)
  {
    var outcomes := Outcomes(rows);
    assert AcceptedNormalized(outcomes);
    CollectNormalized(outcomes);
    Collect(outcomes)
  }

  predicate AcceptedNormalized(outcomes: seq<RowOutcome>) {
    forall i :: 0 <= i < |outcomes| && outcomes[i].Accepted? ==> IsNormalized(outcomes[i].contact)
  }

  lemma CollectNormalized(outcomes: seq<RowOutcome>)
    requires AcceptedNormalized(outcomes)
    ensures forall c :: c in Collect(outcomes) ==> IsNormalized(c)
  {
    forall c | c in Collect(outcomes) ensures IsNormalized(c) {
      var i :| 0 <= i < |outcomes| && outcomes[i] == Accepted(c);
    }
  }

  /** What `read_hr_contacts` returns for a file: nothing when a required
      column is missing from the header, otherwise the accepted rows. */
  function LoadContacts(table: CsvTable): seq<Contact> {
    if HasRequiredColumns(table.header) then ContactsOf(table.rows) else []
  }

  /** `read_hr_contacts` over an opened file: check the header, then walk the
      rows, appending each accepted contact and stopping at the first row
      that raises. */
  method ReadHrContacts(table: CsvTable) returns (contacts: seq<Contact>)
    ensures contacts == LoadContacts(table)
    ensures !HasRequiredColumns(table.header) ==> contacts == []
    ensures |contacts| <= |table.rows|
    ensures forall c :: c in contacts ==> IsNormalized(c)
  {
    contacts := [];
    if !HasRequiredColumns(table.header) {
      return;
    }
    var rows := table.rows;
    ghost var outcomes := Outcomes(rows);
    var i := 0;
    while i < |rows|
      invariant 0 <= i <= |rows|
      invariant NoRaise(outcomes[..i])
      invariant contacts == Collect(outcomes[..i])
    {
      var outcome := Classify(rows[i]);
      assert outcome == outcomes[i];
      match outcome {
        case Raised =>
          CollectStopsAt(outcomes, i);
          return;
        case Skipped(_) =>
          CollectOneMore(outcomes, i);
        case Accepted(c) =>
          CollectOneMore(outcomes, i);
          contacts := contacts + [c];
      }
      i := i + 1;
    }
    assert outcomes[..i] == outcomes;
  }

  /** One step of the read loop: a row that does not raise adds its contact,
      if any, to the end of the result. */
  lemma CollectOneMore(outcomes: seq<RowOutcome>, i: nat)
    requires i < |outcomes| && NoRaise(outcomes[..i]) && !outcomes[i].Raised?
    ensures NoRaise(outcomes[..i + 1])
    ensures Collect(outcomes[..i + 1]) ==
      Collect(outcomes[..i]) + (if outcomes[i].Accepted? then [outcomes[i].contact] else [])
  {
    var a, o := outcomes[..i], outcomes[i];
    assert outcomes[..i + 1] == a + [o];
    CollectAppend(a, [o]);
    assert [o][1..] == [];
  }

  /** The step of the read loop that raises: the result is what the rows
      before it gave. */
  lemma CollectStopsAt(outcomes: seq<RowOutcome>, i: nat)
    requires i < |outcomes| && NoRaise(outcomes[..i]) && outcomes[i].Raised?
    ensures Collect(outcomes) == Collect(outcomes[..i])
  {
    var a, b := outcomes[..i], outcomes[i..];
    assert a + b == outcomes;
    CollectAppend(a, b);
  }

  /** Reading more rows never takes back a contact already accepted: the
      contacts of `a` are a prefix of those of `a + b`, and all of them when
      no row of `a` raises. */
  lemma {:induction false} CollectAppend(a: seq<RowOutcome>, b: seq<RowOutcome>)
    ensures NoRaise(a) ==> Collect(a + b) == Collect(a) + Collect(b)
    ensures !NoRaise(a) ==> Collect(a + b) == Collect(a)
  {
    if a == [] {
      assert a + b == b;
    } else {
      assert (a + b)[0] == a[0];
      assert (a + b)[1..] == a[1..] + b;
      CollectAppend(a[1..], b);
      NoRaiseCons(a);
    }
  }

  lemma NoRaiseCons(a: seq<RowOutcome>)
    requires a != []
    ensures NoRaise(a) <==> !a[0].Raised? && NoRaise(a[1..])
  {
    if !a[0].Raised? && NoRaise(a[1..]) {
      forall k | 0 <= k < |a| ensures !a[k].Raised? {
        if k > 0 { assert a[k] == a[1..][k - 1]; }
      }
    }
  }

  /** The same, over the rows of a file: the contacts read from `a` are a
      prefix of those read from `a + b`, and all of them when no row of `a`
      raises. */
  lemma ContactsOfAppend(a: seq<Row>, b: seq<Row>)
    ensures NoRaise(Outcomes(a)) ==> ContactsOf(a + b) == ContactsOf(a) + ContactsOf(b)
    ensures !NoRaise(Outcomes(a)) ==> ContactsOf(a + b) == ContactsOf(a)
  {
    OutcomesAppend(a, b);
    CollectAppend(Outcomes(a), Outcomes(b));
  }

  /** A row that is skipped leaves the rest of the result as if it were not
      in the file. */
  lemma SkippedRowIsDropped(a: seq<Row>, row: Row, b: seq<Row>)
    requires Classify(row).Skipped?
    ensures ContactsOf(a + [row] + b) == ContactsOf(a + b)
  {
    OutcomesAppend(a + [row], b);
    OutcomesAppend(a, [row]);
    OutcomesAppend(a, b);
    assert Outcomes([row]) == [Classify(row)];
    CollectDropsSkipped(Outcomes(a), Classify(row), Outcomes(b));
  }

  lemma CollectDropsSkipped(a: seq<RowOutcome>, o: RowOutcome, b: seq<RowOutcome>)
    requires o.Skipped?
    ensures Collect(a + [o] + b) == Collect(a + b)
  {
    assert a + [o] + b == a + ([o] + b);
    CollectAppend(a, [o] + b);
    CollectAppend(a, b);
    assert ([o] + b)[1..] == b;
  }

  /** A row that raises ends the read: the result is what the rows before it
      gave, whatever follows. */
  lemma RaisingRowEndsRead(a: seq<Row>, row: Row, b: seq<Row>)
    requires NoRaise(Outcomes(a)) && Classify(row).Raised?
    ensures ContactsOf(a + [row] + b) == ContactsOf(a)
  {
    OutcomesAppend(a + [row], b);
    OutcomesAppend(a, [row]);
    assert Outcomes([row]) == [Classify(row)];
    CollectStopsAtRaise(Outcomes(a), Classify(row), Outcomes(b));
  }

  lemma CollectStopsAtRaise(a: seq<RowOutcome>, o: RowOutcome, b: seq<RowOutcome>)
    requires NoRaise(a) && o.Raised?
    ensures Collect(a + [o] + b) == Collect(a)
  {
    assert a + [o] + b == a + ([o] + b);
    CollectAppend(a, [o] + b);
  }

  /** Every contact collected comes from an accepted outcome with no raising
      outcome before it. */
  lemma {:induction false} CollectedComesFrom(outcomes: seq<RowOutcome>, c: Contact)
    requires c in Collect(outcomes)
    ensures exists i :: 0 <= i < |outcomes| && outcomes[i] == Accepted(c) && NoRaise(outcomes[..i])
  {
    var rest := outcomes[1..];
    if outcomes[0] == Accepted(c) {
      assert NoRaise(outcomes[..0]);
    } else {
      assert c in Collect(rest);
      CollectedComesFrom(rest, c);
      var i :| 0 <= i < |rest| && rest[i] == Accepted(c) && NoRaise(rest[..i]);
      assert outcomes[i + 1] == rest[i];
      assert NoRaise(outcomes[..i + 1]) by {
        forall m | 0 <= m < i + 1 ensures !outcomes[m].Raised? {
          if m > 0 { assert outcomes[m] == rest[..i][m - 1]; }
        }
      }
    }
  }

  lemma ContactComesFromRow(rows: seq<Row>, c: Contact)
    requires c in ContactsOf(rows)
    ensures exists i :: 0 <= i < |rows| && Classify(rows[i]) == Accepted(c) && c == Normalize(rows[i])
                        && NoRaise(Outcomes(rows[..i]))
  {
    var outcomes := Outcomes(rows);
    CollectedComesFrom(outcomes, c);
    var i :| 0 <= i < |outcomes| && outcomes[i] == Accepted(c) && NoRaise(outcomes[..i]);
    OutcomesPrefix(rows, i);
  }

  /** Every accepted row before the first raising row yields a contact in
      the result. */
  lemma AcceptedRowIsReturned(rows: seq<Row>, i: nat)
    requires i < |rows| && Classify(rows[i]).Accepted? && NoRaise(Outcomes(rows[..i]))
    ensures Classify(rows[i]).contact in ContactsOf(rows)
  {
    OutcomesPrefix(rows, i);
    AcceptedIsCollected(Outcomes(rows), i);
  }

  lemma OutcomesPrefix(rows: seq<Row>, i: nat)
    requires i <= |rows|
    ensures Outcomes(rows[..i]) == Outcomes(rows)[..i]
  {
    var p, q := Outcomes(rows[..i]), Outcomes(rows)[..i];
    forall k | 0 <= k < i ensures p[k] == q[k] {
      assert rows[..i][k] == rows[k];
    }
  }

  lemma AcceptedIsCollected(outcomes: seq<RowOutcome>, i: nat)
    requires i < |outcomes| && outcomes[i].Accepted? && NoRaise(outcomes[..i])
    ensures outcomes[i].contact in Collect(outcomes)
  {
    CollectOneMore(outcomes, i);
    var a, b := outcomes[..i + 1], outcomes[i + 1..];
    assert a + b == outcomes;
    CollectAppend(a, b);
    assert Collect(a)[|Collect(outcomes[..i])|] == outcomes[i].contact;
  }

  /** Examples. A line with fewer fields than the header (here a lone name)
      gives `None` for the other columns, and `.strip()` on it raises; a
      complete line is stripped and its email lower-cased. */
  function ShortRow(): Row {
    Row(map["name" := Text("Alice"), "email" := Missing, "company" := Missing], [])
  }

  function BobRow(): Row {
    Row(map["name" := Text(" Bob "), "email" := Text("Bob@Acme.com"), "company" := Text("Acme")], [])
  }

  lemma ShortRowRaises()
    ensures Classify(ShortRow()) == Raised
  {
    var row := ShortRow();
    assert row.cells["name"] == Text("Alice");
    assert Get(row, "email") == Missing;
  }

  lemma BobRowIsAccepted()
    ensures Classify(BobRow()) == Accepted(Contact("Bob", "bob@acme.com", "Acme"))
  {
    var row := BobRow();
    assert row.cells["name"] == Text(" Bob ");
    assert AnyValue(row) && !HasNoneField(row);
    BobRowNormalizes();
  }

  lemma BobRowNormalizes()
    ensures forall f :: f in RequiredFields ==> Get(BobRow(), f).Text?
    ensures BlankFields(BobRow(), RequiredFields) == []
    ensures Normalize(BobRow()) == Contact("Bob", "bob@acme.com", "Acme")
  {
    var row := BobRow();
    assert Get(row, "name") == Text(" Bob ");
    assert Get(row, "email") == Text("Bob@Acme.com");
    assert Get(row, "company") == Text("Acme");
    BobFieldsStripped();
    BobEmailLowered();
    assert !IsBlank(row, "name") && !IsBlank(row, "email") && !IsBlank(row, "company");
  }

  lemma BobFieldsStripped()
    ensures Strip(" Bob ") == "Bob" && Strip("Bob@Acme.com") == "Bob@Acme.com" && Strip("Acme") == "Acme"
  {
    assert SpanStart(" Bob ", 1) == 1;
    assert SpanEnd(" Bob ", 1, 4) == 4;
    assert " Bob "[1..4] == "Bob";
    StripOfStripped("Bob@Acme.com");
    StripOfStripped("Acme");
  }

  lemma BobEmailLowered()
    ensures Lower("Bob@Acme.com") == "bob@acme.com"
  {
    var e, r := "Bob@Acme.com", Lower("Bob@Acme.com");
    forall k | 0 <= k < |e| ensures r[k] == "bob@acme.com"[k] {
      if k == 0 || k == 4 { assert 'A' <= e[k] <= 'Z'; } else { assert !('A' <= e[k] <= 'Z'); }
    }
  }
}
