/**
 * The roster and the attendance ledger (database/db_manager.py).
 * The two SQLite tables are held in memory, each as a sequence of rows in
 * insertion (rowid) order; the table constraints become the invariant Valid().
 * The clock and the storage medium are outside: each write receives the
 * current date and time, and a flag `storeFault` standing for any failure of
 * the store other than a constraint violation.
 */
module Ledger {
  import opened Wrappers

  /** A face embedding; its numeric content is opaque here. */
  type Embedding = seq<real>

  /** A row of the `students` table (id, name, aruco_id, face_embedding). */
  datatype StudentRow = StudentRow(id: int, name: string, arucoId: int, embedding: Embedding)

  /**
   * A row of the `attendance` table. The time of day is held as seconds since
   * midnight: the zero-padded "%H:%M:%S" text orders exactly as that number does.
   */
  datatype AttendanceRow = AttendanceRow(studentId: int, date: string, time: nat, status: string)

  /** A row of the report of one day: (student name, time, status). */
  datatype DayEntry = DayEntry(name: string, time: nat, status: string)

  const DefaultStatus: string := "Present"

  /** UNIQUE(aruco_id) */
  predicate DistinctAruco(rows: seq<StudentRow>) {
    forall i, j :: 0 <= i < j < |rows| ==> rows[i].arucoId != rows[j].arucoId
  }

  /** AUTOINCREMENT ids: positive, strictly increasing in insertion order, all below the next id to issue. */
  predicate IdsIssuedBelow(rows: seq<StudentRow>, next: int) {
    1 <= next &&
    (forall i :: 0 <= i < |rows| ==> 1 <= rows[i].id < next) &&
    (forall i, j :: 0 <= i < j < |rows| ==> rows[i].id < rows[j].id)
  }

  /** UNIQUE(student_id, date) */
  predicate OnePerDay(rows: seq<AttendanceRow>) {
    forall i, j :: 0 <= i < j < |rows| ==>
      !(rows[i].studentId == rows[j].studentId && rows[i].date == rows[j].date)
  }

  /** Whether some row records `studentId` on `date` (a scan of the table). */
  function Recorded(rows: seq<AttendanceRow>, studentId: int, date: string): (found: bool)
    ensures found <==> exists i :: 0 <= i < |rows| && rows[i].studentId == studentId && rows[i].date == date
  {
    if rows == [] then false
    else if rows[0].studentId == studentId && rows[0].date == date then true
    else
      var rest := Recorded(rows[1..], studentId, date);
      assert forall i :: 1 <= i < |rows| ==> rows[i] == rows[1..][i - 1];
      rest
  }

  /** Whether some student holds the marker `arucoId`. */
  predicate ArucoInUse(rows: seq<StudentRow>, arucoId: int) {
    exists i :: 0 <= i < |rows| && rows[i].arucoId == arucoId
  }

  /** The first row whose marker is `arucoId` (what `fetchone` returns), if any. */
  function FirstWithAruco(rows: seq<StudentRow>, arucoId: int): (r: Option<StudentRow>)
    ensures r.Some? ==> r.value in rows && r.value.arucoId == arucoId
    ensures r.None? <==> !ArucoInUse(rows, arucoId)
  {
    if rows == [] then None
    else if rows[0].arucoId == arucoId then Some(rows[0])
    else
      var rest := FirstWithAruco(rows[1..], arucoId);
      assert forall i :: 1 <= i < |rows| ==> rows[i] == rows[1..][i - 1];
      rest
  }

  /** The first row whose id is `id`, if any. */
  function FirstWithId(rows: seq<StudentRow>, id: int): (r: Option<StudentRow>)
    ensures r.Some? ==> r.value in rows && r.value.id == id
    ensures r.None? <==> forall i :: 0 <= i < |rows| ==> rows[i].id != id
  {
    if rows == [] then None
    else if rows[0].id == id then Some(rows[0])
    else
      var rest := FirstWithId(rows[1..], id);
      assert forall i :: 1 <= i < |rows| ==> rows[i] == rows[1..][i - 1];
      rest
  }

  /** Whether an attendance record belongs in the report of `date`: its date matches and its student exists. */
  predicate Joins(row: AttendanceRow, students: seq<StudentRow>, date: string) {
    row.date == date && FirstWithId(students, row.studentId).Some?
  }

  /** The report row of a joined record: the student's name with the record's time and status. */
  function EntryOf(row: AttendanceRow, students: seq<StudentRow>): DayEntry
    requires FirstWithId(students, row.studentId).Some?
  {
    DayEntry(FirstWithId(students, row.studentId).value.name, row.time, row.status)
  }

  /** The positions from `from` on, in table order, of the records the inner join keeps. */
  function JoinedIndices(rows: seq<AttendanceRow>, students: seq<StudentRow>, date: string, from: nat := 0): (ix: seq<nat>)
    ensures forall k :: 0 <= k < |ix| ==> from <= ix[k] < |rows| && Joins(rows[ix[k]], students, date)
    ensures forall k, l :: 0 <= k < l < |ix| ==> ix[k] < ix[l]
    decreases |rows| - from
  {
    if from >= |rows| then []
    else if Joins(rows[from], students, date) then [from] + JoinedIndices(rows, students, date, from + 1)
    else JoinedIndices(rows, students, date, from + 1)
  }

  /** No record the join keeps is skipped: every position from `from` on whose record joins is listed. */
  lemma {:induction false} JoinedIndicesComplete(rows: seq<AttendanceRow>, students: seq<StudentRow>, date: string,
                                                 from: nat, i: nat)
    requires from <= i < |rows| && Joins(rows[i], students, date)
    ensures i in JoinedIndices(rows, students, date, from)
    decreases |rows| - from
  {
    if i > from {
      JoinedIndicesComplete(rows, students, date, from + 1, i);
    }
  }

  /**
   * The report rows of `date` before ordering (an inner join) of the records from
   * `from` on: one row per joined record, in table order.
   */
  function JoinDay(rows: seq<AttendanceRow>, students: seq<StudentRow>, date: string, from: nat := 0): (r: seq<DayEntry>)
    ensures |r| == |JoinedIndices(rows, students, date, from)|
    ensures forall k :: 0 <= k < |r| ==>
              && JoinedIndices(rows, students, date, from)[k] < |rows|
              && Joins(rows[JoinedIndices(rows, students, date, from)[k]], students, date)
              && r[k] == EntryOf(rows[JoinedIndices(rows, students, date, from)[k]], students)
    decreases |rows| - from
  {
    if from >= |rows| then []
    else
      var rest := JoinDay(rows, students, date, from + 1);
      var ix := JoinedIndices(rows, students, date, from);
      var restIx := JoinedIndices(rows, students, date, from + 1);
      if Joins(rows[from], students, date) then
        var r := [EntryOf(rows[from], students)] + rest;
        assert ix == [from] + restIx;
        assert forall k :: 1 <= k < |r| ==> r[k] == rest[k - 1];
        assert forall k :: 1 <= k < |ix| ==> ix[k] == restIx[k - 1];
        r
      else
        assert ix == restIx;
        rest
  }

  /** The inner join is complete: every record of `date` whose student exists gives a report row. */
  lemma JoinDayComplete(rows: seq<AttendanceRow>, students: seq<StudentRow>, date: string, i: nat)
    requires i < |rows| && Joins(rows[i], students, date)
    ensures EntryOf(rows[i], students) in JoinDay(rows, students, date)
  {
    JoinedIndicesComplete(rows, students, date, 0, i);
    var ix := JoinedIndices(rows, students, date);
    var k :| 0 <= k < |ix| && ix[k] == i;
    assert JoinDay(rows, students, date)[k] == EntryOf(rows[i], students);
  }

  predicate SortedByTime(s: seq<DayEntry>) {
    forall i, j :: 0 <= i < j < |s| ==> s[i].time <= s[j].time
  }

  /** An entry no later than every entry of an ordered list can go in front of it. */
  lemma PrependSorted(x: DayEntry, t: seq<DayEntry>)
    requires SortedByTime(t)
    requires forall y :: y in t ==> x.time <= y.time
    ensures SortedByTime([x] + t)
  {
    var r := [x] + t;
    assert forall j :: 1 <= j < |r| ==> r[j] == t[j - 1];
  }

  /** Inserts one entry into a list already ordered by time. */
  function InsertByTime(e: DayEntry, s: seq<DayEntry>): (r: seq<DayEntry>)
    requires SortedByTime(s)
    ensures SortedByTime(r)
    ensures multiset(r) == multiset(s) + multiset{e}
    ensures forall x :: x in r ==> x == e || x in s
  {
    if s == [] then [e]
    else if e.time <= s[0].time then
      assert forall y :: y in s ==> e.time <= y.time;
      PrependSorted(e, s);
      [e] + s
    else
      var rest := InsertByTime(e, s[1..]);
      assert s == [s[0]] + s[1..];
      assert forall y :: y in rest ==> s[0].time <= y.time;
      PrependSorted(s[0], rest);
      [s[0]] + rest
  }

  /** `ORDER BY a.time`: the same entries, ordered by time. */
  function SortByTime(s: seq<DayEntry>): (r: seq<DayEntry>)
    ensures SortedByTime(r)
    ensures multiset(r) == multiset(s)
  {
    if s == [] then []
    else
      assert s == [s[0]] + s[1..];
      InsertByTime(s[0], SortByTime(s[1..]))
  }

  class DatabaseManager {
    /** The `students` table in rowid order. */
    var students: seq<StudentRow>
    /** The `attendance` table in rowid order. */
    var attendance: seq<AttendanceRow>
    /** The next id AUTOINCREMENT will issue for `students`. */
    var nextStudentId: int

    /** The table constraints the store enforces. */
    ghost predicate Valid()
      reads this
    {
      DistinctAruco(students) && IdsIssuedBelow(students, nextStudentId) && OnePerDay(attendance)
    }

    /** Tables created empty (`_ensure_database_exists` on a new file). */
    constructor ()
      ensures Valid()
      ensures students == [] && attendance == [] && nextStudentId == 1
    {
      students, attendance, nextStudentId := [], [], 1;
    }

    /**
     * `add_student`: inserts a student. A marker already in use violates
     * UNIQUE(aruco_id) and, like any other store failure, yields None and no change.
     */
    method AddStudent(name: string, arucoId: int, embedding: Embedding, storeFault: bool) returns (id: Option<int>)
      requires Valid()
      modifies this
      ensures Valid()
      ensures attendance == old(attendance)
      ensures id.None? <==> storeFault || ArucoInUse(old(students), arucoId)
      ensures id.None? ==> students == old(students) && nextStudentId == old(nextStudentId)
      ensures id.Some? ==> (id.value == old(nextStudentId) && nextStudentId == id.value + 1 &&
        students == old(students) + [StudentRow(id.value, name, arucoId, embedding)])
      ensures id.Some? ==> forall i :: 0 <= i < |old(students)| ==> old(students)[i].id < id.value
      ensures id.Some? ==> GetStudentCount() == old(GetStudentCount()) + 1
    {
      if storeFault || ArucoInUse(students, arucoId) {
        return None;
      }
      id := Some(nextStudentId);
      students := students + [StudentRow(nextStudentId, name, arucoId, embedding)];
      nextStudentId := nextStudentId + 1;
    }

    /** `get_all_students`: every row of the roster, in table order. */
    method GetAllStudents() returns (rows: seq<StudentRow>)
      ensures rows == students
    {
      rows := [];
      var i := 0;
      while i < |students|
        invariant 0 <= i <= |students|
        invariant rows == students[..i]
      {
        var row := students[i];
        rows := rows + [StudentRow(row.id, row.name, row.arucoId, row.embedding)];
        i := i + 1;
      }
    }

    /** `get_student_by_id`: the student with that id, or None. */
    function GetStudentById(id: int): (r: Option<StudentRow>)
      reads this
      requires Valid()
      ensures r.Some? ==> r.value in students && r.value.id == id
      ensures r.Some? ==> forall i :: 0 <= i < |students| && students[i].id == id ==> students[i] == r.value
      ensures r.None? ==> forall i :: 0 <= i < |students| ==> students[i].id != id
    {
      FirstWithId(students, id)
    }

    /** `get_student_by_aruco`: the one student holding that marker, or None. */
    function GetStudentByAruco(arucoId: int): (r: Option<StudentRow>)
      reads this
      requires Valid()
      ensures r.Some? ==> r.value in students && r.value.arucoId == arucoId
      ensures r.Some? ==> forall i :: 0 <= i < |students| && students[i].arucoId == arucoId ==> students[i] == r.value
      ensures r.None? ==> !ArucoInUse(students, arucoId)
    {
      FirstWithAruco(students, arucoId)
    }

    /**
     * `mark_attendance`: records (student, date, time, status). A second record
     * for the same student and date violates UNIQUE(student_id, date); that and
     * any other store failure yield false and leave the table unchanged.
     * Foreign keys are not enforced, so the student need not exist.
     */
    method MarkAttendance(studentId: int, date: string, time: nat, storeFault: bool,
                          status: string := DefaultStatus) returns (ok: bool)
      requires Valid()
      modifies this
      ensures Valid()
      ensures students == old(students) && nextStudentId == old(nextStudentId)
      ensures ok <==> !storeFault && !old(CheckAttendanceToday(studentId, date))
      ensures ok ==> attendance == old(attendance) + [AttendanceRow(studentId, date, time, status)]
      ensures !ok ==> attendance == old(attendance)
      ensures ok ==> CheckAttendanceToday(studentId, date)
    {
      if storeFault || Recorded(attendance, studentId, date) {
        return false;
      }
      attendance := attendance + [AttendanceRow(studentId, date, time, status)];
      assert attendance[|attendance| - 1].studentId == studentId && attendance[|attendance| - 1].date == date;
      ok := true;
    }

    /** `check_attendance_today`: whether a record (student, today) exists. */
    function CheckAttendanceToday(studentId: int, today: string): (marked: bool)
      reads this
      ensures marked <==>
                exists i ::
                  0 <= i < |attendance| && attendance[i].studentId == studentId && attendance[i].date == today
    {
      Recorded(attendance, studentId, today)
    }

    /**
     * `get_attendance_by_date`: that date's records joined with their student's name, ordered by time.
     * Student ids are unique under `Valid`, so each record joins at most one student.
     */
    function GetAttendanceByDate(date: string): (r: seq<DayEntry>)
      reads this
      requires Valid()
      ensures SortedByTime(r)
      ensures multiset(r) == multiset(JoinDay(attendance, students, date))
      ensures |r| == |JoinedIndices(attendance, students, date)|
      ensures forall i :: 0 <= i < |attendance| && Joins(attendance[i], students, date) ==>
                EntryOf(attendance[i], students) in r
      ensures forall e :: e in r ==>
                exists i, s ::
                  0 <= i < |attendance| && s in students && attendance[i].date == date &&
                  s.id == attendance[i].studentId && e == DayEntry(s.name, attendance[i].time, attendance[i].status)
    {
      var joined := JoinDay(attendance, students, date);
      var r := SortByTime(joined);
      forall e | e in r
        ensures exists i, s ::
                  0 <= i < |attendance| && s in students && attendance[i].date == date &&
                  s.id == attendance[i].studentId && e == DayEntry(s.name, attendance[i].time, attendance[i].status)
      {
        assert e in multiset(r) && e in multiset(joined);
        var k :| 0 <= k < |joined| && joined[k] == e;
        var i := JoinedIndices(attendance, students, date)[k];
        var s := FirstWithId(students, attendance[i].studentId).value;
        assert s in students && s.id == attendance[i].studentId;
      }
      assert forall e :: e in joined ==> e in multiset(joined) && e in multiset(r) && e in r;
      assert |r| == |multiset(r)| == |multiset(joined)| == |joined|;
      forall i | 0 <= i < |attendance| && Joins(attendance[i], students, date)
        ensures EntryOf(attendance[i], students) in r
      {
        JoinDayComplete(attendance, students, date, i);
      }
      r
    }

    /** `get_student_count`: the number of rows of the roster. */
    function GetStudentCount(): (n: nat)
      reads this
      ensures n == |students|
    {
      |students|
    }
  }
}
