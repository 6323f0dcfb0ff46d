/**
  The `candidates` table: its rows, the columns the generic update may set,
  the defaults the listing applies, and the constraints of the schema
  (NOT NULL, UNIQUE, AUTOINCREMENT) as an invariant over the whole table.
*/
module Records {
  import opened Wrappers
  import opened CandidateCodes

  /** What one column of one row holds: SQL NULL, text or an integer. */
  datatype Cell = Null | Text(s: string) | Int(n: int) {
    /** Python truthiness of the value the driver hands back, as `x or d` tests it. */
    predicate Truthy() {
      match this
      case Null => false
      case Text(s) => s != ""
      case Int(n) => n != 0
    }
  }

  /** Python's `x or d`. */
  function Or(x: Cell, d: Cell): Cell {
    if x.Truthy() then x else d
  }

  /** One row of `candidates`; `createdAt` stands for the `created_at` timestamp. */
  datatype Row = Row(
    id: int,
    date: Cell,
    name: Cell,
    phone: Cell,
    email: Cell,
    dob: Cell,
    location: Cell,
    skills: Cell,
    experience: Cell,
    code: Cell,
    status: Cell,
    interviewDate: Cell,
    interviewTime: Cell,
    interviewLocation: Cell,
    messageSent: Cell,
    createdAt: int)

  /** The columns the generic update may set. */
  datatype Column =
    | Status | InterviewDate | InterviewTime | InterviewLocation | Name | Phone
    | Email | Dob | Location | Skills | Experience | MessageSent

  function ColumnName(c: Column): string {
    match c
    case Status => "status"
    case InterviewDate => "interview_date"
    case InterviewTime => "interview_time"
    case InterviewLocation => "interview_location"
    case Name => "name"
    case Phone => "phone"
    case Email => "email"
    case Dob => "dob"
    case Location => "location"
    case Skills => "skills"
    case Experience => "experience"
    case MessageSent => "message_sent"
  }

  /** The allow-list of `update_candidate_in_database`, in its order. */
  const AllowedFields: seq<string> :=
    ["status", "interview_slot", "interview_date", "interview_time", "interview_location",
     "name", "phone", "email", "dob", "location", "skills", "experience", "message_sent"]

  /** The name on the allow-list that has no column in the table. */
  const NoColumnField: string := "interview_slot"

  /**
    The column an allowed field name designates. Every name on the
    allow-list except `interview_slot` designates one, and no other name does.
  */
  function ColumnNamed(field: string): (r: Option<Column>)
    ensures r.Some? <==> field in AllowedFields && field != NoColumnField
    ensures r.Some? ==> ColumnName(r.value) == field
  {
    match field
    case "status" => Some(Status)
    case "interview_date" => Some(InterviewDate)
    case "interview_time" => Some(InterviewTime)
    case "interview_location" => Some(InterviewLocation)
    case "name" => Some(Name)
    case "phone" => Some(Phone)
    case "email" => Some(Email)
    case "dob" => Some(Dob)
    case "location" => Some(Location)
    case "skills" => Some(Skills)
    case "experience" => Some(Experience)
    case "message_sent" => Some(MessageSent)
    case _ => None
  }

  /** Every column is reached by its own name. */
  lemma ColumnNamedRoundTrip(c: Column)
    ensures ColumnNamed(ColumnName(c)) == Some(c)
  {
  }

  function Get(r: Row, c: Column): Cell {
    match c
    case Status => r.status
    case InterviewDate => r.interviewDate
    case InterviewTime => r.interviewTime
    case InterviewLocation => r.interviewLocation
    case Name => r.name
    case Phone => r.phone
    case Email => r.email
    case Dob => r.dob
    case Location => r.location
    case Skills => r.skills
    case Experience => r.experience
    case MessageSent => r.messageSent
  }

  /**
    `UPDATE candidates SET <c> = v` on one row: column `c` reads `v`, every
    other column reads as before, and `id`, `date`, `code` and `created_at`
    are untouched.
  */
  function SetColumn(r: Row, c: Column, v: Cell): (r': Row)
    ensures Get(r', c) == v
    ensures forall d :: d != c ==> Get(r', d) == Get(r, d)
    ensures r'.id == r.id && r'.date == r.date && r'.code == r.code && r'.createdAt == r.createdAt
  {
    match c
    case Status => r.(status := v)
    case InterviewDate => r.(interviewDate := v)
    case InterviewTime => r.(interviewTime := v)
    case InterviewLocation => r.(interviewLocation := v)
    case Name => r.(name := v)
    case Phone => r.(phone := v)
    case Email => r.(email := v)
    case Dob => r.(dob := v)
    case Location => r.(location := v)
    case Skills => r.(skills := v)
    case Experience => r.(experience := v)
    case MessageSent => r.(messageSent := v)
  }

  /** One element of the list `get_all_candidates` returns. */
  datatype Entry = Entry(
    id: int,
    date: Cell,
    name: Cell,
    phone: Cell,
    email: Cell,
    dob: Cell,
    location: Cell,
    skills: Cell,
    experience: Cell,
    code: Cell,
    status: Cell,
    interviewDate: Cell,
    interviewTime: Cell,
    interviewLocation: Cell,
    messageSent: Cell)

  function EntryGet(e: Entry, c: Column): Cell {
    match c
    case Status => e.status
    case InterviewDate => e.interviewDate
    case InterviewTime => e.interviewTime
    case InterviewLocation => e.interviewLocation
    case Name => e.name
    case Phone => e.phone
    case Email => e.email
    case Dob => e.dob
    case Location => e.location
    case Skills => e.skills
    case Experience => e.experience
    case MessageSent => e.messageSent
  }

  /** The value the listing shows for an empty column: `'New'`, `0` or `''`. */
  function Default(c: Column): (d: Cell)
    ensures d.Truthy() <==> c == Status
  {
    match c
    case Status => Text("New")
    case MessageSent => Int(0)
    case _ => Text("")
  }

  /**
    A row as the listing shows it. `id`, `date` and `code` are passed through;
    every other column keeps a truthy value and shows its default otherwise,
    so none of those columns is ever NULL in the listing.
  */
  function Present(r: Row): (e: Entry)
    ensures e.id == r.id && e.date == r.date && e.code == r.code
    ensures forall c {:trigger EntryGet(e, c)} :: EntryGet(e, c) != Null
    ensures forall c {:trigger EntryGet(e, c)} :: Get(r, c).Truthy() ==> EntryGet(e, c) == Get(r, c)
    ensures forall c {:trigger EntryGet(e, c)} :: !Get(r, c).Truthy() ==> EntryGet(e, c) == Default(c)
  {
    Entry(
      id := r.id,
      date := r.date,
      name := Or(r.name, Default(Name)),
      phone := Or(r.phone, Default(Phone)),
      email := Or(r.email, Default(Email)),
      dob := Or(r.dob, Default(Dob)),
      location := Or(r.location, Default(Location)),
      skills := Or(r.skills, Default(Skills)),
      experience := Or(r.experience, Default(Experience)),
      code := r.code,
      status := Or(r.status, Default(Status)),
      interviewDate := Or(r.interviewDate, Default(InterviewDate)),
      interviewTime := Or(r.interviewTime, Default(InterviewTime)),
      interviewLocation := Or(r.interviewLocation, Default(InterviewLocation)),
      messageSent := Or(r.messageSent, Default(MessageSent)))
  }

  /** The NOT NULL columns hold values and the code is in the code format. */
  predicate RowInvariant(r: Row) {
    && r.phone != Null && r.email != Null && r.location != Null
    && r.code.Text? && IsCandidateCode(r.code.s)
  }

  /** Ids and creation times increase along the rows: they are kept in insertion order. */
  predicate Ascending(rows: seq<Row>) {
    forall i, j :: 0 <= i < j < |rows| ==> rows[i].id < rows[j].id && rows[i].createdAt < rows[j].createdAt
  }

  /** The UNIQUE columns: no two rows share an email or a code. */
  predicate UniqueKeys(rows: seq<Row>) {
    forall i, j :: 0 <= i < j < |rows| ==> rows[i].email != rows[j].email && rows[i].code != rows[j].code
  }

  /**
    The constraints of the `candidates` table: NOT NULL columns are set,
    ids and creation times are below `serial` and increase with position,
    and emails and codes are unique.
  */
  predicate TableInvariant(rows: seq<Row>, serial: int) {
    && (forall i :: 0 <= i < |rows| ==>
          RowInvariant(rows[i]) && 1 <= rows[i].id < serial && rows[i].createdAt < serial)
    && Ascending(rows)
    && UniqueKeys(rows)
  }

  /**
    `ORDER BY created_at DESC`: the rows from the last inserted to the first.
    Element `k` is the `k`-th row counted from the end.
  */
  function ByNewest(rows: seq<Row>): (r: seq<Row>)
    ensures |r| == |rows|
    ensures forall k :: 0 <= k < |rows| ==> r[k] == rows[|rows| - 1 - k]
  {
    if rows == [] then [] else [rows[|rows| - 1]] + ByNewest(rows[..|rows| - 1])
  }

  /**
    Under the invariant, `ByNewest` really is the order the query asks for:
    it holds the same rows, and creation times and ids strictly decrease
    along it.
  */
  lemma ByNewestIsOrdered(rows: seq<Row>, serial: int)
    requires TableInvariant(rows, serial)
    ensures multiset(ByNewest(rows)) == multiset(rows)
    ensures forall k, l :: 0 <= k < l < |rows| ==>
      ByNewest(rows)[k].createdAt > ByNewest(rows)[l].createdAt && ByNewest(rows)[k].id > ByNewest(rows)[l].id
  {
    ByNewestDescends(rows);
    ByNewestPermutes(rows);
  }

  /** Entries presented from the newest-first rows keep their descending ids. */
  lemma PresentedDescend(rows: seq<Row>, entries: seq<Entry>)
    requires Ascending(rows)
    requires |entries| == |rows|
    requires forall k :: 0 <= k < |entries| ==> entries[k] == Present(ByNewest(rows)[k])
    ensures forall k, l :: 0 <= k < l < |entries| ==> entries[k].id > entries[l].id
  {
    ByNewestDescends(rows);
    forall k, l | 0 <= k < l < |entries|
      ensures entries[k].id > entries[l].id
    {
      assert entries[k].id == ByNewest(rows)[k].id;
      assert entries[l].id == ByNewest(rows)[l].id;
    }
  }

  lemma ByNewestDescends(rows: seq<Row>)
    requires Ascending(rows)
    ensures forall k, l :: 0 <= k < l < |rows| ==>
      ByNewest(rows)[k].createdAt > ByNewest(rows)[l].createdAt && ByNewest(rows)[k].id > ByNewest(rows)[l].id
  {
    var r := ByNewest(rows);
    var n := |rows|;
    forall k, l | 0 <= k < l < n
      ensures r[k].createdAt > r[l].createdAt && r[k].id > r[l].id
    {
      assert r[k] == rows[n - 1 - k] && r[l] == rows[n - 1 - l];
    }
  }

  lemma {:induction false} ByNewestPermutes(rows: seq<Row>)
    ensures multiset(ByNewest(rows)) == multiset(rows)
  {
    if rows != [] {
      var p := rows[..|rows| - 1];
      ByNewestPermutes(p);
      assert rows == p + [rows[|rows| - 1]];
    }
  }

  predicate HasEmail(rows: seq<Row>, email: Cell) {
    exists i :: 0 <= i < |rows| && rows[i].email == email
  }

  /** `SELECT id FROM candidates WHERE code = ?` finds a row. */
  predicate HasCode(rows: seq<Row>, code: Cell) {
    exists i :: 0 <= i < |rows| && rows[i].code == code
  }

  /** `WHERE id = ?`: the position of the row with this id, if there is one. */
  function IndexOfId(rows: seq<Row>, id: int): (r: Option<nat>)
    ensures r.Some? ==> r.value < |rows| && rows[r.value].id == id
                        && forall j :: 0 <= j < r.value ==> rows[j].id != id
    ensures r.None? ==> forall j :: 0 <= j < |rows| ==> rows[j].id != id
  {
    if rows == [] then None
    else if rows[0].id == id then Some(0)
    else match IndexOfId(rows[1..], id)
      case None => None
      case Some(k) => Some(k + 1)
  }

  /** Under the invariant, a row's id designates that row and no other. */
  lemma IndexOfIdUnique(rows: seq<Row>, serial: int, i: nat)
    requires TableInvariant(rows, serial) && i < |rows|
    ensures IndexOfId(rows, rows[i].id) == Some(i)
  {
  }

  /** Appending a row that takes a fresh serial, email and code keeps the invariant. */
  lemma InsertKeepsInvariant(rows: seq<Row>, serial: int, r: Row)
    requires TableInvariant(rows, serial) && 1 <= serial
    requires RowInvariant(r) && r.id == serial && r.createdAt == serial
    requires !HasEmail(rows, r.email) && !HasCode(rows, r.code)
    ensures TableInvariant(rows + [r], serial + 1)
  {
    var rs := rows + [r];
    forall i, j | 0 <= i < j < |rs|
      ensures rs[i].email != rs[j].email && rs[i].code != rs[j].code
    {
      if j == |rows| {
        assert rs[i] == rows[i];
      }
    }
  }

  /** The constraint an update of column `c` of row `i` to `v` would violate, if any. */
  datatype Violation = NotNull(column: Column) | Unique(column: Column)

  function CheckUpdate(rows: seq<Row>, i: nat, c: Column, v: Cell): (r: Option<Violation>)
    requires i < |rows|
    ensures r == Some(NotNull(c)) <==> c in {Phone, Email, Location} && v == Null
    ensures r == Some(Unique(c)) <==>
      c == Email && v != Null && exists j :: 0 <= j < |rows| && j != i && rows[j].email == v
    ensures r.Some? ==> r == Some(NotNull(c)) || r == Some(Unique(c))
  {
    if c in {Phone, Email, Location} && v == Null then Some(NotNull(c))
    else if c == Email && exists j :: 0 <= j < |rows| && j != i && rows[j].email == v then Some(Unique(c))
    else None
  }

  /** An update that violates no constraint keeps the invariant. */
  lemma UpdateKeepsInvariant(rows: seq<Row>, serial: int, i: nat, c: Column, v: Cell)
    requires TableInvariant(rows, serial) && i < |rows|
    requires CheckUpdate(rows, i, c, v) == None
    ensures TableInvariant(rows[i := SetColumn(rows[i], c, v)], serial)
  {
    var rs := rows[i := SetColumn(rows[i], c, v)];
    UpdateKeepsRow(rows[i], c, v);
    UpdateKeepsOrder(rows, i, c, v);
    UpdateKeepsUnique(rows, i, c, v);
    assert forall k :: 0 <= k < |rs| ==> rs[k] == rows[k] || k == i;
  }

  /** An update the constraint check refuses would break the table invariant. */
  lemma RefusedUpdateBreaksInvariant(rows: seq<Row>, serial: int, i: nat, c: Column, v: Cell)
    requires TableInvariant(rows, serial) && i < |rows|
    requires CheckUpdate(rows, i, c, v).Some?
    ensures !TableInvariant(rows[i := SetColumn(rows[i], c, v)], serial)
  {
    var r' := SetColumn(rows[i], c, v);
    var rs := rows[i := r'];
    assert Get(r', c) == v;
    if CheckUpdate(rows, i, c, v) == Some(NotNull(c)) {
      assert !RowInvariant(rs[i]);
    } else {
      var j :| 0 <= j < |rows| && j != i && rows[j].email == v;
      assert rs[j] == rows[j] && rs[i].email == v;
      if j < i {
        assert !UniqueKeys(rs);
      } else {
        assert !UniqueKeys(rs);
      }
    }
  }

  /**
    The constraint check is exact: an update keeps the table invariant if and
    only if the check lets it through.
  */
  lemma UpdateAllowedIff(rows: seq<Row>, serial: int, i: nat, c: Column, v: Cell)
    requires TableInvariant(rows, serial) && i < |rows|
    ensures CheckUpdate(rows, i, c, v) == None <==> TableInvariant(rows[i := SetColumn(rows[i], c, v)], serial)
  {
    if CheckUpdate(rows, i, c, v) == None {
      UpdateKeepsInvariant(rows, serial, i, c, v);
    } else {
      RefusedUpdateBreaksInvariant(rows, serial, i, c, v);
    }
  }

  /** Setting a column to a value NOT NULL allows keeps the row well formed. */
  lemma UpdateKeepsRow(r: Row, c: Column, v: Cell)
    requires RowInvariant(r)
    requires c in {Phone, Email, Location} ==> v != Null
    ensures RowInvariant(SetColumn(r, c, v))
  {
    var r' := SetColumn(r, c, v);
    assert Get(r', Phone) == r'.phone && Get(r', Email) == r'.email && Get(r', Location) == r'.location;
    assert Get(r, Phone) == r.phone && Get(r, Email) == r.email && Get(r, Location) == r.location;
  }

  /** An update leaves ids and creation times, hence their order, alone. */
  lemma UpdateKeepsOrder(rows: seq<Row>, i: nat, c: Column, v: Cell)
    requires Ascending(rows) && i < |rows|
    ensures Ascending(rows[i := SetColumn(rows[i], c, v)])
  {
    var rs := rows[i := SetColumn(rows[i], c, v)];
    assert forall k :: 0 <= k < |rs| ==> rs[k].id == rows[k].id && rs[k].createdAt == rows[k].createdAt;
  }

  /** An update that breaks no UNIQUE constraint keeps emails and codes distinct. */
  lemma UpdateKeepsUnique(rows: seq<Row>, i: nat, c: Column, v: Cell)
    requires UniqueKeys(rows) && i < |rows|
    requires CheckUpdate(rows, i, c, v) == None
    ensures UniqueKeys(rows[i := SetColumn(rows[i], c, v)])
  {
    var r' := SetColumn(rows[i], c, v);
    var rs := rows[i := r'];
    assert Get(r', Email) == r'.email && Get(rows[i], Email) == rows[i].email;
    forall k, j | 0 <= k < j < |rs|
      ensures rs[k].email != rs[j].email && rs[k].code != rs[j].code
    {
      if k != i && j != i {
        assert rs[k] == rows[k] && rs[j] == rows[j];
      }
    }
  }

  /** `UPDATE candidates SET message_sent = 1 WHERE id = ?`. */
  function MarkRows(rows: seq<Row>, id: int): (rs: seq<Row>)
    ensures |rs| == |rows|
    ensures forall j :: 0 <= j < |rows| && rows[j].id != id ==> rs[j] == rows[j]
    ensures IndexOfId(rows, id).Some? ==>
      var i := IndexOfId(rows, id).value; rs[i] == SetColumn(rows[i], MessageSent, Int(1))
  {
    match IndexOfId(rows, id)
    case None => rows
    case Some(i) => rows[i := SetColumn(rows[i], MessageSent, Int(1))]
  }

  /** Marking an id that no row has changes nothing. */
  lemma MarkAbsentIsNoop(rows: seq<Row>, id: int)
    requires forall j :: 0 <= j < |rows| ==> rows[j].id != id
    ensures MarkRows(rows, id) == rows
  {
  }

  /** Marking twice is the same as marking once. */
  lemma MarkIdempotent(rows: seq<Row>, id: int)
    ensures MarkRows(MarkRows(rows, id), id) == MarkRows(rows, id)
  {
    var once := MarkRows(rows, id);
    match IndexOfId(rows, id)
    case None =>
    case Some(i) =>
      assert forall j :: 0 <= j < |rows| ==> once[j].id == rows[j].id;
      assert IndexOfId(once, id) == Some(i);
  }

  /** Marking keeps the invariant. */
  lemma MarkKeepsInvariant(rows: seq<Row>, serial: int, id: int)
    requires TableInvariant(rows, serial)
    ensures TableInvariant(MarkRows(rows, id), serial)
  {
    match IndexOfId(rows, id)
    case None =>
    case Some(i) =>
      UpdateKeepsInvariant(rows, serial, i, MessageSent, Int(1));
  }
}
