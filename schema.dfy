/**
 * The three database tables as values (server.js:169-208): a student
 * account, an administrator account and a maintenance request, plus the
 * status vocabulary and the column limits the handlers enforce.
 */
module Schema {
  import opened Wrappers

  /** An AUTO_INCREMENT primary key; the counters start at 1. */
  type Id = nat

  /** What bcrypt stores; the model never looks inside it. */
  type PasswordHash = string

  /** A `DATETIME` value; only its order matters to the model. */
  type Timestamp = int

  /** A row of `students`, as the registration handler writes it. */
  datatype Student = Student(
    fullName: string,
    contactNumber: string,
    email: string,
    residence: string,
    block: string,
    password: PasswordHash)

  /** A row of `admin`. */
  datatype Admin = Admin(email: string, password: PasswordHash)

  /**
   * A row of `student_requests`. `studentId` is NULL once the author's
   * account is deleted (`ON DELETE SET NULL`); the three snapshot columns
   * are nullable in the schema, but every insertion fills them, so they are
   * plain strings here.
   */
  datatype Request = Request(
    id: Id,
    studentId: Option<Id>,
    subject: string,
    description: string,
    status: string,
    dateCreated: Timestamp,
    studentName: string,
    studentResidence: string,
    studentBlock: string)

  const Pending: string := "Pending"
  const Approved: string := "Approved"
  const Completed: string := "Completed"

  /** `validStatuses` of the update-status handler; `Pending` is also the column default. */
  const ValidStatuses: seq<string> := [Pending, Approved, Completed]

  predicate IsValidStatus(status: string) {
    status in ValidStatuses
  }

  /** The three statuses differ in their first letter. */
  lemma StatusesDistinct()
    ensures Pending != Approved && Pending != Completed && Approved != Completed
  {
    assert Pending[0] == 'P' && Approved[0] == 'A' && Completed[0] == 'C';
  }

  /** The create-request handler's length limits, on the untrimmed input. */
  const MaxSubjectLength: nat := 255
  const MaxDescriptionLength: nat := 1000
}
