/**
  The candidate lifecycle over the `candidates` table: submitting a new
  candidate (`save_to_database`), the generic single-field update
  (`update_candidate_in_database`), the listing (`get_all_candidates`) and
  the `message_sent` flag set by `send_message`.
*/
module Lifecycle {
  import opened Wrappers
  import opened Strings
  import opened CandidateCodes
  import opened Records

  /** `candidate_data.get(key, default)`. */
  function Lookup(data: map<string, string>, key: string, fallback: string): string {
    if key in data then data[key] else fallback
  }

  /** The three mandatory fields of a submission, stripped. */
  datatype Mandatory = Mandatory(email: string, phone: string, location: string)

  function MandatoryOf(data: map<string, string>): (m: Mandatory)
    ensures m.email == "" <==> AllSpace(Lookup(data, "email", ""))
    ensures m.phone == "" <==> AllSpace(Lookup(data, "phone", ""))
    ensures m.location == "" <==> AllSpace(Lookup(data, "location", ""))
  {
    Mandatory(Strip(Lookup(data, "email", "")),
              Strip(Lookup(data, "phone", "")),
              Strip(Lookup(data, "location", "")))
  }

  /** The position of a mandatory field's label in the order the error lists them. */
  function LabelRank(field: string): nat {
    if field == "Email" then 0 else if field == "Phone" then 1 else 2
  }

  /**
    The labels of the empty fields among the stripped mandatory ones: a
    label is listed exactly when its field is empty, in the order Email,
    Phone, Location.
  */
  function MissingLabels(m: Mandatory): (r: seq<string>)
    ensures "Email" in r <==> m.email == ""
    ensures "Phone" in r <==> m.phone == ""
    ensures "Location" in r <==> m.location == ""
    ensures forall f :: f in r ==> f in ["Email", "Phone", "Location"]
    ensures forall i, j :: 0 <= i < j < |r| ==> LabelRank(r[i]) < LabelRank(r[j])
  {
    (if m.email == "" then ["Email"] else [])
    + (if m.phone == "" then ["Phone"] else [])
    + (if m.location == "" then ["Location"] else [])
  }

  /**
    The labels of the mandatory fields a submission lacks; by the contracts
    of `MandatoryOf` and `MissingLabels`, a field is listed exactly when it is
    absent or only whitespace, in the order Email, Phone, Location.
  */
  function MissingFields(data: map<string, string>): seq<string> {
    MissingLabels(MandatoryOf(data))
  }

  /**
    A label is among the missing fields exactly when its field is absent or
    only whitespace, and the labels keep the order Email, Phone, Location.
  */
  lemma MissingFieldsExact(data: map<string, string>)
    ensures "Email" in MissingFields(data) <==> AllSpace(Lookup(data, "email", ""))
    ensures "Phone" in MissingFields(data) <==> AllSpace(Lookup(data, "phone", ""))
    ensures "Location" in MissingFields(data) <==> AllSpace(Lookup(data, "location", ""))
    ensures forall i, j :: 0 <= i < j < |MissingFields(data)| ==>
      LabelRank(MissingFields(data)[i]) < LabelRank(MissingFields(data)[j])
  {
    var m := MandatoryOf(data);
    assert MissingFields(data) == MissingLabels(m);
  }

  /** The missing-field list of a submission, written out from the raw values. */
  lemma MissingFieldsList(data: map<string, string>)
    ensures MissingFields(data) ==
      (if AllSpace(Lookup(data, "email", "")) then ["Email"] else [])
      + (if AllSpace(Lookup(data, "phone", "")) then ["Phone"] else [])
      + (if AllSpace(Lookup(data, "location", "")) then ["Location"] else [])
  {
    var m := MandatoryOf(data);
    MissingLabelsList(m, AllSpace(Lookup(data, "email", "")), AllSpace(Lookup(data, "phone", "")),
                      AllSpace(Lookup(data, "location", "")));
  }

  /** The labels listed for stripped fields whose emptiness is given by three flags. */
  lemma MissingLabelsList(m: Mandatory, noEmail: bool, noPhone: bool, noLocation: bool)
    requires noEmail <==> m.email == ""
    requires noPhone <==> m.phone == ""
    requires noLocation <==> m.location == ""
    ensures MissingLabels(m) ==
      (if noEmail then ["Email"] else []) + (if noPhone then ["Phone"] else [])
      + (if noLocation then ["Location"] else [])
  {
  }

  datatype SaveError =
    | MissingMandatory(fields: seq<string>)
    | DuplicateEmail(email: string)
      /** The supplied draws ran out before an unused code came up. */
    | CodesExhausted

  /** The `error` text of a failed save; it names the duplicate email or every missing field. */
  function SaveErrorMessage(e: SaveError): (msg: string)
    ensures e.DuplicateEmail? ==> Occurs(e.email, msg)
    ensures e.MissingMandatory? ==> forall k :: 0 <= k < |e.fields| ==> Occurs(e.fields[k], msg)
  {
    match e
    case MissingMandatory(fields) =>
      var prefix := "Missing mandatory fields: ";
      var joined := Join(fields, ", ");
      assert forall k :: 0 <= k < |fields| ==> Occurs(fields[k], prefix + joined) by {
        forall k | 0 <= k < |fields| ensures Occurs(fields[k], prefix + joined) {
          JoinContains(fields, ", ", k);
          var i :| 0 <= i <= |joined| - |fields[k]| && fields[k] <= joined[i..];
          assert (prefix + joined)[|prefix| + i..] == joined[i..];
        }
      }
      prefix + joined
    case DuplicateEmail(email) =>
      OccursBetween(email, "Candidate with email ", " is already registered");
      "Candidate with email " + email + " is already registered"
    case CodesExhausted => "No unused candidate code was drawn"
  }

  /** What a successful save returns: the new row's id and its code. */
  datatype Saved = Saved(candidateId: int, code: string)

  /** The codes the successive calls of the generator produce. */
  function Generated(draws: seq<Draw>): seq<string> {
    seq(|draws|, i requires 0 <= i < |draws| => DrawCode(draws[i]))
  }

  /** The first of `codes[k..]` that no row holds, if any. */
  function FirstFreeFrom(rows: seq<Row>, codes: seq<string>, k: nat): (r: Option<nat>)
    requires k <= |codes|
    ensures r.Some? ==> k <= r.value < |codes| && !HasCode(rows, Text(codes[r.value]))
                        && forall j :: k <= j < r.value ==> HasCode(rows, Text(codes[j]))
    ensures r.None? ==> forall j :: k <= j < |codes| ==> HasCode(rows, Text(codes[j]))
    decreases |codes| - k
  {
    if k == |codes| then None
    else if !HasCode(rows, Text(codes[k])) then Some(k)
    else FirstFreeFrom(rows, codes, k + 1)
  }

  /** The position the re-drawing loop stops at. */
  function FirstFree(rows: seq<Row>, codes: seq<string>): Option<nat> {
    FirstFreeFrom(rows, codes, 0)
  }

  /**
    The code the re-drawing loop settles on is in the code format and no row
    holds it yet.
  */
  lemma FirstFreeIsFresh(rows: seq<Row>, draws: seq<Draw>)
    requires FirstFree(rows, Generated(draws)).Some?
    ensures ParseCode(Generated(draws)[FirstFree(rows, Generated(draws)).value]).Some?
    ensures !HasCode(rows, Text(Generated(draws)[FirstFree(rows, Generated(draws)).value]))
  {
    var k := FirstFree(rows, Generated(draws)).value;
    assert Generated(draws)[k] == CandidateCode(draws[k].year, draws[k].number);
  }

  /** The row `INSERT INTO candidates` adds; the columns it does not name take their defaults. */
  function NewRow(data: map<string, string>, today: string, m: Mandatory, code: string, serial: int): (r: Row)
    ensures r.id == serial && r.createdAt == serial
    ensures r.email == Text(m.email) && r.phone == Text(m.phone) && r.location == Text(m.location)
    ensures r.code == Text(code) && r.status == Text("New") && r.messageSent == Int(0)
    ensures r.date == Text(Lookup(data, "date", today))
    ensures r.name == Text(Lookup(data, "name", "")) && r.dob == Text(Lookup(data, "dob", ""))
    ensures r.skills == Text(Lookup(data, "skills", "")) && r.experience == Text(Lookup(data, "experience", ""))
    ensures r.interviewDate == Null && r.interviewTime == Null && r.interviewLocation == Null
  {
    Row(
      id := serial,
      date := Text(Lookup(data, "date", today)),
      name := Text(Lookup(data, "name", "")),
      phone := Text(m.phone),
      email := Text(m.email),
      dob := Text(Lookup(data, "dob", "")),
      location := Text(m.location),
      skills := Text(Lookup(data, "skills", "")),
      experience := Text(Lookup(data, "experience", "")),
      code := Text(code),
      status := Text("New"),
      interviewDate := Null,
      interviewTime := Null,
      interviewLocation := Null,
      messageSent := Int(0),
      createdAt := serial)
  }

  /**
    Once a submission is inserted its email is on file, so submitting the
    same email again is refused as a duplicate.
  */
  lemma ResubmitIsDuplicate(rows: seq<Row>, data: map<string, string>, today: string, code: string, serial: int)
    ensures HasEmail(rows + [NewRow(data, today, MandatoryOf(data), code, serial)], Text(MandatoryOf(data).email))
  {
    var rows' := rows + [NewRow(data, today, MandatoryOf(data), code, serial)];
    assert rows'[|rows|].email == Text(MandatoryOf(data).email);
  }

  /**
    Two submissions of the same candidate to an empty table: the first is
    stored whenever its mandatory fields are present and a code is drawn, and
    the second is then refused as a duplicate of the first's email.
  */
  method SubmitTwice(data: map<string, string>, today: string, draws: seq<Draw>, redraws: seq<Draw>)
    returns (first: Result<Saved, SaveError>, second: Result<Saved, SaveError>)
    ensures first.Success? <==> MissingFields(data) == [] && FirstFree([], Generated(draws)).Some?
    ensures first.Success? ==> second == Failure(DuplicateEmail(MandatoryOf(data).email))
  {
    var store := new Store();
    first := store.Submit(data, today, draws);
    if first.Success? {
      ResubmitIsDuplicate([], data, today, first.value.code, 1);
    }
    second := store.Submit(data, today, redraws);
  }

  /** The `for row in rows` loop of the listing: one presented entry per fetched row, in order. */
  method PresentEach(ordered: seq<Row>) returns (entries: seq<Entry>)
    ensures |entries| == |ordered|
    ensures forall j :: 0 <= j < |ordered| ==> entries[j] == Present(ordered[j])
  {
    entries := [];
    for k := 0 to |ordered|
      invariant |entries| == k
      invariant forall j :: 0 <= j < k ==> entries[j] == Present(ordered[j])
    {
      entries := entries + [Present(ordered[k])];
    }
  }

  datatype UpdateError =
    | InvalidField
    | NotFound
      /** The allowed field name has no column; the statement cannot be prepared. */
    | NoSuchColumn(field: string)
    | ConstraintFailed(violation: Violation)

  /**
    The candidates table. `rows` is in insertion order; `serial` is the next
    AUTOINCREMENT id and also the creation stamp of the next row, so later
    rows have later `createdAt`.
  */
  class Store {
    var rows: seq<Row>
    var serial: int

    ghost predicate Valid()
      reads this
    {
      1 <= serial && TableInvariant(rows, serial)
    }

    constructor ()
      ensures Valid() && rows == [] && serial == 1
    {
      rows := [];
      serial := 1;
    }

    /**
      `save_to_database`: checks the mandatory fields, rejects a known email,
      re-draws until a code is unused, then inserts the row with status 'New'.
    */
    method Submit(data: map<string, string>, today: string, draws: seq<Draw>)
      returns (r: Result<Saved, SaveError>)
      requires Valid()
      modifies this
      ensures Valid()
      ensures MissingFields(data) != [] ==>
        r == Failure(MissingMandatory(MissingFields(data))) && rows == old(rows) && serial == old(serial)
      ensures MissingFields(data) == [] && HasEmail(old(rows), Text(MandatoryOf(data).email)) ==>
        r == Failure(DuplicateEmail(MandatoryOf(data).email)) && rows == old(rows) && serial == old(serial)
      ensures MissingFields(data) == [] && !HasEmail(old(rows), Text(MandatoryOf(data).email)) ==>
        match FirstFree(old(rows), Generated(draws))
        case None =>
          r == Failure(CodesExhausted) && rows == old(rows) && serial == old(serial)
        case Some(k) =>
          && r == Success(Saved(old(serial), Generated(draws)[k]))
          && rows == old(rows) + [NewRow(data, today, MandatoryOf(data), Generated(draws)[k], old(serial))]
          && serial == old(serial) + 1
    {
      var missing := MissingFields(data);
      if missing != [] {
        return Failure(MissingMandatory(missing));
      }
      var m := MandatoryOf(data);
      if HasEmail(rows, Text(m.email)) {
        return Failure(DuplicateEmail(m.email));
      }
      var codes := Generated(draws);
      var k := 0;
      while k < |codes| && HasCode(rows, Text(codes[k]))
        invariant 0 <= k <= |codes|
        invariant FirstFreeFrom(rows, codes, k) == FirstFree(rows, codes)
      {
        k := k + 1;
      }
      if k == |codes| {
        return Failure(CodesExhausted);
      }
      var code := codes[k];
      assert code == CandidateCode(draws[k].year, draws[k].number);
      var id := Insert(NewRow(data, today, m, code, serial));
      r := Success(Saved(id, code));
    }

    /** `INSERT INTO candidates`: appends a row that takes the next serial, a fresh email and a fresh code. */
    method Insert(row: Row) returns (id: int)
      requires Valid()
      requires RowInvariant(row) && row.id == serial && row.createdAt == serial
      requires !HasEmail(rows, row.email) && !HasCode(rows, row.code)
      modifies this
      ensures Valid()
      ensures id == old(serial) && rows == old(rows) + [row] && serial == old(serial) + 1
      ensures HasEmail(rows, row.email) && HasCode(rows, row.code)
    {
      InsertKeepsInvariant(rows, serial, row);
      id := serial;
      rows := rows + [row];
      serial := serial + 1;
      assert rows[|rows| - 1] == row;
    }

    /**
      `update_candidate_in_database`: refuses a field off the allow-list, then
      a field without a column, then an id no row has, then a value that breaks
      a NOT NULL or UNIQUE constraint; otherwise sets that one column of that
      one row.
    */
    method Update(id: int, field: string, value: Cell) returns (r: Outcome<UpdateError>)
      requires Valid()
      modifies this
      ensures Valid() && serial == old(serial)
      ensures |rows| == |old(rows)|
      ensures forall j :: 0 <= j < |rows| ==>
        rows[j].id == old(rows)[j].id && rows[j].code == old(rows)[j].code
        && rows[j].createdAt == old(rows)[j].createdAt
      ensures field !in AllowedFields ==> r == Fail(InvalidField) && rows == old(rows)
      ensures field == NoColumnField ==> r == Fail(NoSuchColumn(field)) && rows == old(rows)
      ensures ColumnNamed(field).Some? ==>
        var c := ColumnNamed(field).value;
        match IndexOfId(old(rows), id)
        case None => r == Fail(NotFound) && rows == old(rows)
        case Some(i) =>
          match CheckUpdate(old(rows), i, c, value)
          case Some(v) => r == Fail(ConstraintFailed(v)) && rows == old(rows)
          case None => r == Pass && rows == old(rows)[i := SetColumn(old(rows)[i], c, value)]
    {
      if field !in AllowedFields {
        return Fail(InvalidField);
      }
      var column := ColumnNamed(field);
      if column.None? {
        return Fail(NoSuchColumn(field));
      }
      var c := column.value;
      var index := IndexOfId(rows, id);
      if index.None? {
        return Fail(NotFound);
      }
      var i := index.value;
      var violation := CheckUpdate(rows, i, c, value);
      if violation.Some? {
        return Fail(ConstraintFailed(violation.value));
      }
      UpdateKeepsInvariant(rows, serial, i, c, value);
      rows := rows[i := SetColumn(rows[i], c, value)];
      r := Pass;
    }

    /**
      `get_all_candidates`: every row, newest first, each with the listing's
      defaults applied.
    */
    method List() returns (entries: seq<Entry>)
      requires Valid()
      ensures |entries| == |rows|
      ensures forall k :: 0 <= k < |entries| ==> entries[k] == Present(ByNewest(rows)[k])
      ensures forall k, l :: 0 <= k < l < |entries| ==> ByNewest(rows)[k].createdAt > ByNewest(rows)[l].createdAt
      ensures forall k, l :: 0 <= k < l < |entries| ==> entries[k].id > entries[l].id
    {
      entries := PresentEach(ByNewest(rows));
      ByNewestDescends(rows);
      PresentedDescend(rows, entries);
    }

    /** `UPDATE candidates SET message_sent = 1 WHERE id = ?`. */
    method MarkMessaged(id: int)
      requires Valid()
      modifies this
      ensures Valid() && serial == old(serial)
      ensures rows == MarkRows(old(rows), id)
    {
      MarkKeepsInvariant(rows, serial, id);
      rows := MarkRows(rows, id);
    }

    /**
      The table side of `send_message`: without a message nothing happens;
      with one, a given non-zero candidate id is marked as messaged whatever
      the (simulated) deliveries did.
    */
    method SendMessage(message: string, candidateId: Option<int>) returns (ok: bool)
      requires Valid()
      modifies this
      ensures Valid() && serial == old(serial)
      ensures ok <==> message != ""
      ensures rows == if ok && candidateId.Some? && candidateId.value != 0
                      then MarkRows(old(rows), candidateId.value) else old(rows)
    {
      if message == "" {
        return false;
      }
      if candidateId.Some? && candidateId.value != 0 {
        MarkMessaged(candidateId.value);
      }
      ok := true;
    }
  }
}
