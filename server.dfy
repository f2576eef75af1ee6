/**
 * The request-lifecycle service of server.js as an in-memory store: the
 * three tables and their AUTO_INCREMENT counters are fields of `Service`,
 * each route handler is a method, and every `io.to(room).emit(...)` is
 * appended to an event log. Password hashing, password comparison and the
 * authenticated identity are inputs.
 */
module Server {
  import opened Wrappers
  import opened Text
  import opened Validation
  import opened Schema
  import opened Queries
  import opened Rooms

  /** A Socket.IO socket id. */
  type ConnId = string

  const NewRequestEvent: string := "new-request"
  const RequestUpdatedEvent: string := "request-updated"

  /** One `io.to(room).emit(name, payload)`. */
  datatype Event = Event(room: string, name: string, payload: Row)

  /** `broadcastToAdmins`: the event reaches the administrators and no student room. */
  function ToAdmins(name: string, payload: Row): (e: Event)
    ensures e.room == AdminRoom && e.name == name && e.payload == payload
    ensures forall residence, block :: e.room != StudentRoom(residence, block)
  {
    Event(AdminRoom, name, payload)
  }

  /** `broadcastToStudentRoom`: the event reaches the pair's room and not the administrators. */
  function ToStudentRoom(residence: string, block: string, name: string, payload: Row): (e: Event)
    ensures e.room == StudentRoom(residence, block) && e.room != AdminRoom
    ensures e.name == name && e.payload == payload
  {
    AdminRoomIsNoStudentRoom(residence, block);
    Event(StudentRoom(residence, block), name, payload)
  }

  datatype Role = AdminRole | StudentRole

  /** The verified token's payload: who is calling. */
  datatype Identity = Identity(id: int, email: string, role: Role)

  /** The `user` object of a successful login, tagged with the role it was found under. */
  datatype Session =
    | AdminSession(id: Id, email: string)
    | StudentSession(id: Id, fullName: string, email: string, residence: string, block: string)

  /** 400 and 401 answers of the login handler. */
  datatype LoginError = MissingCredentials | InvalidCredentials

  /** 400, 404 and 403 answers of the delete-student handler. */
  datatype DeleteError = MissingStudentId | StudentNotFound | NotOwnAccount

  /** 400, 400 and 404 answers of the create-request handler. */
  datatype CreateError = MissingRequestField | InputTooLong | AuthorNotFound

  /** 400, 400 and 404 answers of the update-status handler. */
  datatype UpdateError = MissingStatus | InvalidStatus | RequestNotFound

  /** Some student's email equals `email` under the collation. */
  predicate EmailRegistered(students: map<Id, Student>, email: string) {
    exists sid :: sid in students && SameText(students[sid].email, email)
  }

  predicate AdminEmailRegistered(admins: map<Id, Admin>, email: string) {
    exists aid :: aid in admins && SameText(admins[aid].email, email)
  }

  /** The `UNIQUE` constraint on `admin.email`, under the collation. */
  ghost predicate AdminEmailsDistinct(admins: map<Id, Admin>) {
    forall a, b :: a in admins && b in admins && SameText(admins[a].email, admins[b].email) ==> a == b
  }

  /** The `UNIQUE` constraint on `students.email`, and registration's lower-casing. */
  ghost predicate StudentEmailsLowerDistinct(students: map<Id, Student>) {
    && (forall a :: a in students ==> Lower(students[a].email) == students[a].email)
    && (forall a, b :: a in students && b in students && SameText(students[a].email, students[b].email) ==> a == b)
  }

  /**
   * The foreign key holds, and a request that still has its author carries
   * that author's name, residence and block in its snapshot columns.
   */
  ghost predicate SnapshotsCurrent(students: map<Id, Student>, requests: seq<Request>) {
    forall i :: 0 <= i < |requests| && requests[i].studentId.Some? ==>
      && requests[i].studentId.value in students
      && requests[i].studentName == students[requests[i].studentId.value].fullName
      && requests[i].studentResidence == students[requests[i].studentId.value].residence
      && requests[i].studentBlock == students[requests[i].studentId.value].block
  }

  /**
   * The UPDATE that copies the student's identity onto every request
   * referencing it: those rows then carry the student's name, residence and
   * block, only the snapshot columns change, and rows of other authors are
   * untouched.
   */
  function SnapshotRows(requests: seq<Request>, sid: Id, s: Student): (rs: seq<Request>)
    ensures |rs| == |requests|
    ensures forall i :: 0 <= i < |rs| && rs[i].studentId == Some(sid) ==>
      rs[i].studentName == s.fullName && rs[i].studentResidence == s.residence && rs[i].studentBlock == s.block
    ensures forall i :: 0 <= i < |rs| ==>
      rs[i] == requests[i].(studentName := rs[i].studentName, studentResidence := rs[i].studentResidence, studentBlock := rs[i].studentBlock)
    ensures forall i :: 0 <= i < |rs| && requests[i].studentId != Some(sid) ==> rs[i] == requests[i]
  {
    seq(|requests|, i requires 0 <= i < |requests| =>
      if requests[i].studentId == Some(sid) then
        requests[i].(studentName := s.fullName, studentResidence := s.residence, studentBlock := s.block)
      else requests[i])
  }

  /**
   * `ON DELETE SET NULL` on `student_requests.studentId`: afterwards no row
   * refers to the deleted id, only the `studentId` column changes, and rows
   * of other authors are untouched.
   */
  function DetachRows(requests: seq<Request>, sid: Id): (rs: seq<Request>)
    ensures |rs| == |requests|
    ensures forall i :: 0 <= i < |rs| ==> rs[i].studentId != Some(sid) && rs[i] == requests[i].(studentId := rs[i].studentId)
    ensures forall i :: 0 <= i < |rs| && requests[i].studentId == Some(sid) ==> rs[i].studentId.None?
    ensures forall i :: 0 <= i < |rs| && requests[i].studentId != Some(sid) ==> rs[i] == requests[i]
  {
    seq(|requests|, i requires 0 <= i < |requests| =>
      if requests[i].studentId == Some(sid) then requests[i].(studentId := None) else requests[i])
  }

  /**
   * The requests table after a student's deletion, snapshot first and
   * detach second: no request is lost, the deleted student's requests lose
   * their author and carry the author's name, residence and block, and
   * every other request is as it was.
   */
  function DeleteRows(requests: seq<Request>, sid: Id, s: Student): (rs: seq<Request>)
    ensures |rs| == |requests|
    ensures forall i :: 0 <= i < |requests| && requests[i].studentId == Some(sid) ==>
      rs[i] == requests[i].(studentId := None, studentName := s.fullName,
                            studentResidence := s.residence, studentBlock := s.block)
    ensures forall i :: 0 <= i < |requests| && requests[i].studentId != Some(sid) ==> rs[i] == requests[i]
  {
    DetachRows(SnapshotRows(requests, sid, s), sid)
  }

  /** `UPDATE student_requests SET status = ? WHERE id = ?`: only the status of the matching rows changes. */
  function SetStatus(requests: seq<Request>, id: Id, status: string): (rs: seq<Request>)
    ensures |rs| == |requests|
    ensures forall i :: 0 <= i < |requests| && requests[i].id == id ==> rs[i] == requests[i].(status := status)
    ensures forall i :: 0 <= i < |requests| && requests[i].id != id ==> rs[i] == requests[i]
  {
    seq(|requests|, i requires 0 <= i < |requests| =>
      if requests[i].id == id then requests[i].(status := status) else requests[i])
  }

  /**
   * The row create-request inserts; the columns it leaves out take their
   * defaults: a listed status, Pending, and the clock's time. The text is
   * stored trimmed, and the snapshot is the author's current identity.
   */
  function NewRequest(id: Id, sid: Id, s: Student, subject: string, description: string, now: Timestamp): (r: Request)
    ensures r.id == id && r.studentId == Some(sid) && r.dateCreated == now
    ensures r.status == Pending && IsValidStatus(r.status)
    ensures r.studentName == s.fullName && r.studentResidence == s.residence && r.studentBlock == s.block
  {
    Request(id, Some(sid), Trim(subject), Trim(description), Pending, now, s.fullName, s.residence, s.block)
  }

  /** The rooms a connection has joined so far. */
  function RoomsOf(joined: map<ConnId, set<string>>, conn: ConnId): set<string> {
    if conn in joined then joined[conn] else {}
  }

  /** AUTO_INCREMENT ids grow along the table, so no two requests share one. */
  ghost predicate IdsIncreasing(requests: seq<Request>) {
    forall i, j :: 0 <= i < j < |requests| ==> requests[i].id < requests[j].id
  }

  /** With distinct ids the status UPDATE touches exactly one row. */
  lemma SetStatusTouchesOneRow(requests: seq<Request>, k: nat, status: string)
    requires IdsIncreasing(requests) && k < |requests|
    ensures SetStatus(requests, requests[k].id, status) == requests[k := requests[k].(status := status)]
  {
    var after := SetStatus(requests, requests[k].id, status);
    forall i | 0 <= i < |requests| && i != k ensures after[i] == requests[i] {
      assert requests[i].id != requests[k].id by {
        if i < k { assert requests[i].id < requests[k].id; } else { assert requests[k].id < requests[i].id; }
      }
    }
  }

  /**
   * What the schema and the handlers keep true of the tables: ids below
   * their counters and increasing along the requests table, every status one
   * of the three, the foreign key with current snapshots, and the email
   * constraints.
   */
  ghost predicate TablesValid(students: map<Id, Student>, admins: map<Id, Admin>, requests: seq<Request>,
                              nextStudentId: Id, nextRequestId: Id)
  {
    && 0 < nextStudentId && 0 < nextRequestId
    && (forall sid :: sid in students ==> 0 < sid < nextStudentId)
    && (forall i :: 0 <= i < |requests| ==> 0 < requests[i].id < nextRequestId)
    && IdsIncreasing(requests)
    && (forall i :: 0 <= i < |requests| ==> IsValidStatus(requests[i].status))
    && SnapshotsCurrent(students, requests)
    && StudentEmailsLowerDistinct(students)
    && AdminEmailsDistinct(admins)
  }

  /** Registering a student with a fresh, lower-case, unused email keeps the tables valid. */
  lemma RegisterPreservesTables(students: map<Id, Student>, admins: map<Id, Admin>, requests: seq<Request>,
                                nextStudentId: Id, nextRequestId: Id, s: Student, after: map<Id, Student>)
    requires TablesValid(students, admins, requests, nextStudentId, nextRequestId)
    requires Lower(s.email) == s.email && !EmailRegistered(students, s.email)
    requires after == students[nextStudentId := s]
    ensures nextStudentId !in students
    ensures TablesValid(after, admins, requests, nextStudentId + 1, nextRequestId)
  {
    assert SnapshotsCurrent(after, requests) by {
      forall i | 0 <= i < |requests| && requests[i].studentId.Some?
        ensures requests[i].studentId.value in students && after[requests[i].studentId.value] == students[requests[i].studentId.value]
      {
      }
    }
  }

  /** Appending a request with the next id, a listed status and its author's snapshot keeps the tables valid. */
  lemma CreatePreservesTables(students: map<Id, Student>, admins: map<Id, Admin>, requests: seq<Request>,
                              nextStudentId: Id, nextRequestId: Id, req: Request, after: seq<Request>)
    requires TablesValid(students, admins, requests, nextStudentId, nextRequestId)
    requires req.id == nextRequestId && IsValidStatus(req.status)
    requires req.studentId.Some? ==> && req.studentId.value in students
                                     && req.studentName == students[req.studentId.value].fullName
                                     && req.studentResidence == students[req.studentId.value].residence
                                     && req.studentBlock == students[req.studentId.value].block
    requires after == requests + [req]
    ensures TablesValid(students, admins, after, nextStudentId, nextRequestId + 1)
  {
    assert forall i :: 0 <= i < |requests| ==> after[i] == requests[i];
  }

  /** Deleting a student, snapshot first and detach second, keeps the tables valid. */
  lemma DeletePreservesTables(students: map<Id, Student>, admins: map<Id, Admin>, requests: seq<Request>,
                              nextStudentId: Id, nextRequestId: Id, sid: Id,
                              students': map<Id, Student>, requests': seq<Request>)
    requires TablesValid(students, admins, requests, nextStudentId, nextRequestId)
    requires sid in students
    requires students' == students - {sid} && requests' == DeleteRows(requests, sid, students[sid])
    ensures TablesValid(students', admins, requests', nextStudentId, nextRequestId)
  {
  }

  /** Setting a listed status keeps the tables valid. */
  lemma SetStatusPreservesTables(students: map<Id, Student>, admins: map<Id, Admin>, requests: seq<Request>,
                                 nextStudentId: Id, nextRequestId: Id, id: Id, status: string, after: seq<Request>)
    requires TablesValid(students, admins, requests, nextStudentId, nextRequestId)
    requires IsValidStatus(status)
    requires after == SetStatus(requests, id, status)
    ensures TablesValid(students, admins, after, nextStudentId, nextRequestId)
  {
  }

  class Service {
    var students: map<Id, Student>
    var admins: map<Id, Admin>
    var requests: seq<Request>
    var nextStudentId: Id
    var nextRequestId: Id
    /** Everything emitted so far, oldest first. */
    var events: seq<Event>
    /** The rooms each connection has joined. */
    var joined: map<ConnId, set<string>>

    ghost predicate Valid()
      reads this
    {
      TablesValid(students, admins, requests, nextStudentId, nextRequestId)
    }

    /** The tables once the database is initialised: the seeded administrators and nothing else. */
    constructor (seeded: map<Id, Admin>)
      requires AdminEmailsDistinct(seeded)
      ensures Valid()
      ensures students == map[] && admins == seeded && requests == []
      ensures nextStudentId == 1 && nextRequestId == 1
      ensures events == [] && joined == map[]
    {
      students, admins, requests := map[], seeded, [];
      nextStudentId, nextRequestId := 1, 1;
      events, joined := [], map[];
    }

    /**
     * `POST /api/students/register`. `hash` is what bcrypt made of the
     * password. The checks run in the handler's order on the raw input;
     * the stored name, residence and block are trimmed and the email is
     * lower-cased.
     */
    method Register(body: RegisterBody, hash: PasswordHash) returns (r: Outcome<RegisterError>)
      requires Valid()
      modifies this
      ensures Valid()
      ensures CheckRegistration(body).Some? ==> r == Fail(CheckRegistration(body).value) && unchanged(this)
      ensures CheckRegistration(body).None? && EmailRegistered(old(students), body.email.value) ==>
        r == Fail(EmailTaken) && unchanged(this)
      ensures CheckRegistration(body).None? && !EmailRegistered(old(students), body.email.value) ==>
        && r == Pass
        && old(nextStudentId) !in old(students)
        && students == old(students)[old(nextStudentId) := Student(
             Trim(body.fullName.value), body.contactNumber.value, Lower(body.email.value),
             Trim(body.residence.value), Trim(body.block.value), hash)]
        && nextStudentId == old(nextStudentId) + 1
        && admins == old(admins) && requests == old(requests) && nextRequestId == old(nextRequestId)
        && events == old(events) && joined == old(joined)
    {
      var invalid := CheckRegistration(body);
      if invalid.Some? {
        return Fail(invalid.value);
      }
      var email := body.email.value;
      if exists sid :: sid in students && SameText(students[sid].email, email) {
        return Fail(EmailTaken);
      }
      var s := Student(Trim(body.fullName.value), body.contactNumber.value, Lower(email),
                       Trim(body.residence.value), Trim(body.block.value), hash);
      LowerIdempotent(email);
      forall sid | sid in students ensures !SameText(students[sid].email, s.email) {
        SameTextLowered(students[sid].email, email);
      }
      InsertStudent(s);
      r := Pass;
    }

    /** `INSERT INTO students`: the row takes the next AUTO_INCREMENT id. */
    method InsertStudent(s: Student)
      requires Valid()
      requires Lower(s.email) == s.email && !EmailRegistered(students, s.email)
      modifies this
      ensures Valid()
      ensures old(nextStudentId) !in old(students)
      ensures students == old(students)[old(nextStudentId) := s] && nextStudentId == old(nextStudentId) + 1
      ensures admins == old(admins) && requests == old(requests) && nextRequestId == old(nextRequestId)
      ensures events == old(events) && joined == old(joined)
    {
      students, nextStudentId := students[nextStudentId := s], nextStudentId + 1;
      RegisterPreservesTables(old(students), admins, requests, old(nextStudentId), nextRequestId, s, students);
    }

    /**
     * `POST /api/login`: the administrators' table is searched first, then
     * the students'; `matches` stands for `bcrypt.compare`. A found account
     * with a wrong password, or no account at all, is `InvalidCredentials`.
     */
    method Login(email: Option<string>, password: Option<string>, matches: (string, PasswordHash) -> bool)
      returns (r: Result<Session, LoginError>)
      requires Valid()
      ensures !Given(email) || !Given(password) ==> r == Err(MissingCredentials)
      ensures Given(email) && Given(password) && AdminEmailRegistered(admins, email.value) ==>
        exists aid :: aid in admins && SameText(admins[aid].email, email.value) &&
          r == (if matches(password.value, admins[aid].password)
                then Ok(AdminSession(aid, admins[aid].email)) else Err(InvalidCredentials))
      ensures (Given(email) && Given(password) && !AdminEmailRegistered(admins, email.value)
               && EmailRegistered(students, email.value)) ==>
        exists sid :: sid in students && SameText(students[sid].email, email.value) &&
          var s := students[sid];
          r == (if matches(password.value, s.password)
                then Ok(StudentSession(sid, s.fullName, s.email, s.residence, s.block)) else Err(InvalidCredentials))
      ensures (Given(email) && Given(password) && !AdminEmailRegistered(admins, email.value)
               && !EmailRegistered(students, email.value)) ==> r == Err(InvalidCredentials)
    {
      if !Given(email) || !Given(password) {
        return Err(MissingCredentials);
      }
      var lowered := Lower(email.value);
      forall e: string ensures SameText(e, lowered) <==> SameText(e, email.value) {
        SameTextLowered(e, email.value);
      }
      if exists aid :: aid in admins && SameText(admins[aid].email, lowered) {
        var aid :| aid in admins && SameText(admins[aid].email, lowered);
        if !matches(password.value, admins[aid].password) {
          return Err(InvalidCredentials);
        }
        return Ok(AdminSession(aid, admins[aid].email));
      }
      if exists sid :: sid in students && SameText(students[sid].email, lowered) {
        var sid :| sid in students && SameText(students[sid].email, lowered);
        var s := students[sid];
        if !matches(password.value, s.password) {
          return Err(InvalidCredentials);
        }
        return Ok(StudentSession(sid, s.fullName, s.email, s.residence, s.block));
      }
      r := Err(InvalidCredentials);
    }

    /**
     * `DELETE /api/students/:id`. `rawId` is what `parseInt` made of the
     * path (None for NaN) and `caller` the verified token. The student's
     * name, residence and block are copied onto its requests, then the
     * account is deleted and the requests are detached from it.
     */
    method DeleteStudent(rawId: Option<int>, caller: Identity) returns (r: Outcome<DeleteError>)
      requires Valid()
      modifies this
      ensures Valid()
      ensures rawId.None? || rawId.value == 0 ==> r == Fail(MissingStudentId) && unchanged(this)
      ensures rawId.Some? && rawId.value != 0 && !(rawId.value > 0 && rawId.value as Id in old(students)) ==>
        r == Fail(StudentNotFound) && unchanged(this)
      ensures rawId.Some? && rawId.value > 0 && rawId.value as Id in old(students)
              && caller.role == StudentRole && caller.id != rawId.value ==>
        r == Fail(NotOwnAccount) && unchanged(this)
      ensures rawId.Some? && rawId.value > 0 && rawId.value as Id in old(students)
              && (caller.role == AdminRole || caller.id == rawId.value) ==>
        && r == Pass
        && students == old(students) - {rawId.value as Id}
        && requests == DeleteRows(old(requests), rawId.value as Id, old(students)[rawId.value as Id])
        && admins == old(admins) && nextStudentId == old(nextStudentId) && nextRequestId == old(nextRequestId)
        && events == old(events) && joined == old(joined)
    {
      if rawId.None? || rawId.value == 0 {
        return Fail(MissingStudentId);
      }
      if rawId.value < 0 || rawId.value as Id !in students {
        return Fail(StudentNotFound);
      }
      var sid: Id := rawId.value as Id;
      if caller.role == StudentRole && caller.id != sid {
        return Fail(NotOwnAccount);
      }
      RemoveStudent(sid);
      r := Pass;
    }

    /**
     * The snapshot `UPDATE`, then `DELETE FROM students` with its
     * `ON DELETE SET NULL` on the requests.
     */
    method RemoveStudent(sid: Id)
      requires Valid() && sid in students
      modifies this
      ensures Valid()
      ensures students == old(students) - {sid}
      ensures requests == DeleteRows(old(requests), sid, old(students)[sid])
      ensures admins == old(admins) && nextStudentId == old(nextStudentId) && nextRequestId == old(nextRequestId)
      ensures events == old(events) && joined == old(joined)
    {
      var s := students[sid];
      requests := SnapshotRows(requests, sid, s);
      students := students - {sid};
      requests := DetachRows(requests, sid);
      DeletePreservesTables(old(students), admins, old(requests), nextStudentId, nextRequestId, sid, students, requests);
    }

    /**
     * `POST /api/requests`. `now` is the database clock. The stored subject
     * and description are trimmed, the status is the column default and the
     * snapshot columns copy the author; the joined row is then sent to the
     * administrators and to the author's residence and block.
     */
    method CreateRequest(studentId: Option<int>, subject: Option<string>, description: Option<string>, now: Timestamp)
      returns (r: Outcome<CreateError>)
      requires Valid()
      modifies this
      ensures Valid()
      ensures studentId.None? || studentId.value == 0 || !Given(subject) || !Given(description) ==>
        r == Fail(MissingRequestField) && unchanged(this)
      ensures studentId.Some? && studentId.value != 0 && Given(subject) && Given(description)
              && (Utf16Length(subject.value) > MaxSubjectLength || Utf16Length(description.value) > MaxDescriptionLength) ==>
        r == Fail(InputTooLong) && unchanged(this)
      ensures studentId.Some? && studentId.value != 0 && Given(subject) && Given(description)
              && Utf16Length(subject.value) <= MaxSubjectLength && Utf16Length(description.value) <= MaxDescriptionLength
              && !(studentId.value > 0 && studentId.value as Id in old(students)) ==>
        r == Fail(AuthorNotFound) && unchanged(this)
      ensures studentId.Some? && studentId.value > 0 && Given(subject) && Given(description)
              && Utf16Length(subject.value) <= MaxSubjectLength && Utf16Length(description.value) <= MaxDescriptionLength
              && studentId.value as Id in old(students) ==>
        var s := old(students)[studentId.value as Id];
        var req := NewRequest(old(nextRequestId), studentId.value as Id, s, subject.value, description.value, now);
        var row := Row(req, s.fullName, s.residence, s.block);
        && r == Pass
        && requests == old(requests) + [req]
        && nextRequestId == old(nextRequestId) + 1
        && events == old(events) + [ToAdmins(NewRequestEvent, row), ToStudentRoom(s.residence, s.block, NewRequestEvent, row)]
        && students == old(students) && admins == old(admins) && nextStudentId == old(nextStudentId)
        && joined == old(joined)
    {
      if studentId.None? || studentId.value == 0 || !Given(subject) || !Given(description) {
        return Fail(MissingRequestField);
      }
      if Utf16Length(subject.value) > MaxSubjectLength || Utf16Length(description.value) > MaxDescriptionLength {
        return Fail(InputTooLong);
      }
      if studentId.value < 0 || studentId.value as Id !in students {
        return Fail(AuthorNotFound);
      }
      var sid: Id := studentId.value as Id;
      var s := students[sid];
      var req := InsertRequest(sid, subject.value, description.value, now);
      var row := Row(req, s.fullName, s.residence, s.block);
      Emit(ToAdmins(NewRequestEvent, row));
      Emit(ToStudentRoom(row.residence, row.block, NewRequestEvent, row));
      r := Pass;
    }

    /** `INSERT INTO student_requests`: the row takes the next AUTO_INCREMENT id and the clock's time. */
    method InsertRequest(sid: Id, subject: string, description: string, now: Timestamp) returns (req: Request)
      requires Valid() && sid in students
      modifies this
      ensures Valid()
      ensures req == NewRequest(old(nextRequestId), sid, old(students)[sid], subject, description, now)
      ensures forall i :: 0 <= i < |old(requests)| ==> old(requests)[i].id < req.id
      ensures requests == old(requests) + [req] && nextRequestId == old(nextRequestId) + 1
      ensures students == old(students) && admins == old(admins) && nextStudentId == old(nextStudentId)
      ensures events == old(events) && joined == old(joined)
    {
      var id := nextRequestId;
      req := NewRequest(id, sid, students[sid], subject, description, now);
      assert forall i :: 0 <= i < |requests| ==> requests[i].id < id;
      var after := requests + [req];
      CreatePreservesTables(students, admins, requests, nextStudentId, id, req, after);
      requests, nextRequestId := after, id + 1;
    }

    /** One `io.to(room).emit(...)`. */
    method Emit(e: Event)
      requires Valid()
      modifies this
      ensures Valid()
      ensures events == old(events) + [e]
      ensures students == old(students) && admins == old(admins) && requests == old(requests)
      ensures nextStudentId == old(nextStudentId) && nextRequestId == old(nextRequestId) && joined == old(joined)
    {
      events := events + [e];
    }

    /**
     * `PUT /api/requests/:id/status`. Any listed status may replace any
     * other; the resolved row is sent to the administrators and to the room
     * of its resolved residence and block.
     */
    method UpdateStatus(id: int, status: Option<string>) returns (r: Outcome<UpdateError>)
      requires Valid()
      modifies this
      ensures Valid()
      ensures !Given(status) ==> r == Fail(MissingStatus) && unchanged(this)
      ensures Given(status) && !IsValidStatus(status.value) ==> r == Fail(InvalidStatus) && unchanged(this)
      ensures Given(status) && IsValidStatus(status.value)
              && !(exists k :: 0 <= k < |old(requests)| && old(requests)[k].id == id) ==>
        r == Fail(RequestNotFound) && unchanged(this)
      ensures Given(status) && IsValidStatus(status.value)
              && (exists k :: 0 <= k < |old(requests)| && old(requests)[k].id == id) ==>
        && r == Pass
        && requests == SetStatus(old(requests), id as Id, status.value)
        && (exists k :: 0 <= k < |old(requests)| && old(requests)[k].id == id
             && requests == old(requests)[k := old(requests)[k].(status := status.value)]
             && events == old(events) + [ToAdmins(RequestUpdatedEvent, Resolve(students, requests[k])),
                                         ToStudentRoom(Resolve(students, requests[k]).residence, Resolve(students, requests[k]).block,
                                                       RequestUpdatedEvent, Resolve(students, requests[k]))])
        && students == old(students) && admins == old(admins)
        && nextStudentId == old(nextStudentId) && nextRequestId == old(nextRequestId)
        && joined == old(joined)
    {
      if !Given(status) {
        return Fail(MissingStatus);
      }
      if !IsValidStatus(status.value) {
        return Fail(InvalidStatus);
      }
      if !exists k :: 0 <= k < |requests| && requests[k].id == id {
        return Fail(RequestNotFound);
      }
      var k :| 0 <= k < |requests| && requests[k].id == id;
      SetStatusTouchesOneRow(requests, k, status.value);
      UpdateRequestStatus(id as Id, status.value);
      var row := Resolve(students, requests[k]);
      Emit(ToAdmins(RequestUpdatedEvent, row));
      Emit(ToStudentRoom(row.residence, row.block, RequestUpdatedEvent, row));
      r := Pass;
    }

    /** `UPDATE student_requests SET status = ? WHERE id = ?`. */
    method UpdateRequestStatus(id: Id, status: string)
      requires Valid() && IsValidStatus(status)
      modifies this
      ensures Valid()
      ensures requests == SetStatus(old(requests), id, status)
      ensures students == old(students) && admins == old(admins)
      ensures nextStudentId == old(nextStudentId) && nextRequestId == old(nextRequestId)
      ensures events == old(events) && joined == old(joined)
    {
      requests := SetStatus(requests, id, status);
      SetStatusPreservesTables(students, admins, old(requests), nextStudentId, nextRequestId, id, status, requests);
    }

    /** `GET /api/requests`: every request, resolved, newest first. */
    method GetAllRequests() returns (rows: seq<Row>)
      ensures rows == ListAll(students, requests)
      ensures |rows| == |requests| && NewestFirst(rows)
      ensures forall row :: row in rows <==> ResolvedFrom(students, requests, row)
    {
      rows := SortNewestFirst(ResolveAll(students, requests));
      ListAllSpec(students, requests);
    }

    /** `GET /api/requests/block/:residence/:block`, given the two path parameters. */
    method GetBlockRequests(residence: string, block: string) returns (rows: seq<Row>)
      ensures rows == ListByBlock(students, requests, residence, block)
      ensures NewestFirst(rows)
      ensures forall row :: row in rows <==> ResolvedInBlock(students, requests, residence, block, row)
    {
      rows := SortNewestFirst(ResolveAll(students, FilterBlock(students, requests, residence, block)));
      ListByBlockSpec(students, requests, residence, block);
    }

    /** The `join-admin-room` message. */
    method JoinAdminRoom(conn: ConnId)
      requires Valid()
      modifies this
      ensures Valid()
      ensures joined == old(joined)[conn := RoomsOf(old(joined), conn) + {AdminRoom}]
      ensures students == old(students) && admins == old(admins) && requests == old(requests)
      ensures nextStudentId == old(nextStudentId) && nextRequestId == old(nextRequestId) && events == old(events)
    {
      joined := joined[conn := RoomsOf(joined, conn) + {AdminRoom}];
    }

    /** The `join-student-room` message with its residence and block. */
    method JoinStudentRoom(conn: ConnId, residence: string, block: string)
      requires Valid()
      modifies this
      ensures Valid()
      ensures joined == old(joined)[conn := RoomsOf(old(joined), conn) + {StudentRoom(residence, block)}]
      ensures students == old(students) && admins == old(admins) && requests == old(requests)
      ensures nextStudentId == old(nextStudentId) && nextRequestId == old(nextRequestId) && events == old(events)
    {
      joined := joined[conn := RoomsOf(joined, conn) + {StudentRoom(residence, block)}];
    }
  }
}
