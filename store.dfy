/** The state every route handler shares: the three MySQL tables and the
    directory of per-user question-set files, held by one `Database` object.
    The table queries the handlers issue (the WHERE clauses of their SELECTs)
    are functions here; each handler's writes live with the handler. */
module Store {
  import opened Outcomes

  /** One multiple-choice question as stored in a question-set file. */
  datatype Question = Question(question: string, options: seq<string>, correctAnswer: int)

  /** The shape every generated question has: four options and the index of one of them. */
  predicate WellFormed(q: Question)
  {
    |q.options| == 4 && 0 <= q.correctAnswer < 4
  }

  predicate AllWellFormed(qs: seq<Question>)
  {
    forall i :: 0 <= i < |qs| ==> WellFormed(qs[i])
  }

  /** The five profile columns that have a get- and a set- route each. */
  datatype Profile = Name | Enrollment | Branch | Phone | College

  /** A row of the users table; its uid is the key it is stored under.
      The profile columns are nullable. */
  datatype UserRow = UserRow(
    username: string, email: string, passwordHash: string,
    name: Option<string>, enrollment: Option<string>, branch: Option<string>,
    phone: Option<string>, college: Option<string>,
    createdAt: int)

  /** Every profile column is a VARCHAR(255). */
  const ColumnWidth := 255

  /** The value without its run of trailing spaces. */
  function TrimTrailingSpaces(s: string): (t: string)
    ensures t <= s
    ensures forall i :: |t| <= i < |s| ==> s[i] == ' '
    ensures t == [] || t[|t| - 1] != ' '
  {
    if s != [] && s[|s| - 1] == ' ' then TrimTrailingSpaces(s[..|s| - 1]) else s
  }

  /** Whether a VARCHAR column accepts the value under MySQL's strict SQL mode:
      excess trailing spaces are cut (with a note) in every mode, while any
      other content past the width makes the write fail. */
  predicate FitsColumn(value: string)
  {
    |TrimTrailingSpaces(value)| <= ColumnWidth
  }

  /** The column accepts a value exactly when nothing but spaces lies past its
      width, however many such spaces there are. */
  lemma FitsColumnIffSpacesBeyond(value: string)
    ensures FitsColumn(value) <==> forall i :: ColumnWidth <= i < |value| ==> value[i] == ' '
  {
  }

  /** What the column stores for a value it accepts: the value itself, or its
      first ColumnWidth characters when only spaces lie beyond them. */
  function Fit(value: string): (r: string)
    requires FitsColumn(value)
    ensures |r| <= ColumnWidth && r <= value
    ensures forall i :: |r| <= i < |value| ==> value[i] == ' '
    ensures |value| <= ColumnWidth ==> r == value
    ensures |value| > ColumnWidth ==> |r| == ColumnWidth
  {
    if |value| <= ColumnWidth then value else value[..ColumnWidth]
  }

  function FieldOf(u: UserRow, f: Profile): Option<string>
  {
    match f
    case Name => u.name
    case Enrollment => u.enrollment
    case Branch => u.branch
    case Phone => u.phone
    case College => u.college
  }

  /** The row after `UPDATE users SET <f> = v`: column f holds v, every other column is as it was. */
  function WithField(u: UserRow, f: Profile, v: string): (r: UserRow)
    ensures FieldOf(r, f) == Some(v)
    ensures forall g :: g != f ==> FieldOf(r, g) == FieldOf(u, g)
    ensures r.username == u.username && r.email == u.email
    ensures r.passwordHash == u.passwordHash && r.createdAt == u.createdAt
  {
    match f
    case Name => u.(name := Some(v))
    case Enrollment => u.(enrollment := Some(v))
    case Branch => u.(branch := Some(v))
    case Phone => u.(phone := Some(v))
    case College => u.(college := Some(v))
  }

  /** A row of the tests table: one timed session, with the snapshot of its
      owner's question set. Times are milliseconds since the epoch. */
  datatype TestRow = TestRow(tid: string, uid: string, password: string, questions: seq<Question>, expiryTime: int)

  /** A row of the history table: who joined which test, and when. */
  datatype HistoryRow = HistoryRow(tid: string, uid: string, joined: bool, joinedAt: int)

  /** `uid = ? AND expiry_time > ?`: the test belongs to uid and has not expired at now. */
  predicate ActiveFor(t: TestRow, uid: string, now: int)
  {
    t.uid == uid && t.expiryTime > now
  }

  /** `SELECT * FROM tests WHERE uid = ? AND expiry_time > ?`, rows in table order. */
  function ActiveTests(tests: seq<TestRow>, uid: string, now: int): (r: seq<TestRow>)
    ensures forall t :: t in r <==> t in tests && ActiveFor(t, uid, now)
    ensures r != [] ==> exists i :: 0 <= i < |tests| && tests[i] == r[0] && FirstActive(tests, uid, now, i)
  {
    if tests == [] then []
    else
      var rest := ActiveTests(tests[1..], uid, now);
      if ActiveFor(tests[0], uid, now) then
        assert FirstActive(tests, uid, now, 0);
        [tests[0]] + rest
      else
        assert rest != [] ==> exists i :: 0 <= i < |tests| && tests[i] == rest[0] && FirstActive(tests, uid, now, i) by {
          if rest != [] {
            var k :| 0 <= k < |tests[1..]| && tests[1..][k] == rest[0] && FirstActive(tests[1..], uid, now, k);
            assert FirstActive(tests, uid, now, k + 1);
          }
        }
        rest
  }

  /** Row i is active for uid at now, and no earlier row is. */
  predicate FirstActive(tests: seq<TestRow>, uid: string, now: int, i: int)
    requires 0 <= i < |tests|
  {
    ActiveFor(tests[i], uid, now) && forall j :: 0 <= j < i ==> !ActiveFor(tests[j], uid, now)
  }

  /** `SELECT * FROM tests WHERE tid = ? AND password = ?`, first row. */
  function FindTest(tests: seq<TestRow>, tid: string, password: string): (r: Option<TestRow>)
    ensures r.None? <==> forall t :: t in tests ==> !(t.tid == tid && t.password == password)
    ensures r.Some? ==> r.value in tests && r.value.tid == tid && r.value.password == password
  {
    if tests == [] then None
    else if tests[0].tid == tid && tests[0].password == password then Some(tests[0])
    else FindTest(tests[1..], tid, password)
  }

  function TestIds(tests: seq<TestRow>): set<string>
  {
    set t | t in tests :: t.tid
  }

  /** The UNIQUE constraint on tests.tid. */
  predicate TidsDistinct(tests: seq<TestRow>)
  {
    forall i, j :: 0 <= i < j < |tests| ==> tests[i].tid != tests[j].tid
  }

  /** `SELECT * FROM history WHERE tid = ? AND uid = ?` returns a row. */
  predicate HasEntry(history: seq<HistoryRow>, tid: string, uid: string)
  {
    exists i :: 0 <= i < |history| && history[i].tid == tid && history[i].uid == uid
  }

  /** At most one history row per (tid, uid): kept by join-test, not by the schema. */
  predicate JoinsDistinct(history: seq<HistoryRow>)
  {
    forall i, j :: 0 <= i < j < |history| ==> !(history[i].tid == history[j].tid && history[i].uid == history[j].uid)
  }

  /** The database and the question-set directory. */
  class Database {
    /** users, keyed by the uid column */
    var users: map<string, UserRow>
    /** tests, in insertion (primary key) order */
    var tests: seq<TestRow>
    /** history, in insertion order */
    var history: seq<HistoryRow>
    /** the file ./mcqs/<uid>.json, for every uid that has one */
    var mcqFiles: map<string, seq<Question>>

    /** The schema's constraints (unique tid, the foreign keys of tests and
        history) and what the handlers keep on top of them: one history row
        per (tid, uid) and only well-formed questions. */
    ghost predicate Valid()
      reads this
    {
      && TidsDistinct(tests)
      && (forall t :: t in tests ==> t.uid in users && AllWellFormed(t.questions))
      && (forall e :: e in history ==> e.uid in users && e.tid in TestIds(tests))
      && JoinsDistinct(history)
      && (forall u :: u in mcqFiles ==> AllWellFormed(mcqFiles[u]))
    }

    /** A database whose users table holds the accounts created by signup,
        with no tests, no history and no question-set files. */
    constructor (accounts: map<string, UserRow>)
      ensures Valid()
      ensures users == accounts && tests == [] && history == [] && mcqFiles == map[]
    {
      users := accounts;
      tests := [];
      history := [];
      mcqFiles := map[];
    }
  }
}
