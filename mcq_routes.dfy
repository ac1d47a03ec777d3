/** The question-set routes. generate-and-get-mcq stores the fixed mock set of
    three questions as the user's question-set file, replacing any earlier one;
    regenerate-question replaces one question of the stored set and copies the
    updated set into every unexpired test of that user. The clock and the
    random draw for the new question's answer are inputs. */
module McqRoutes {
  import opened Outcomes
  import opened Encoding
  import opened Store

  /** The mock question set a generation produces; the uploaded PDF at
      pdfPath is not read. */
  function MockQuestions(pdfPath: string): (qs: seq<Question>)
    ensures |qs| == 3
    ensures AllWellFormed(qs)
  {
    [ Question("What is Express.js?",
               ["A front-end framework",
                "A back-end web application framework for Node.js",
                "A database management system",
                "A programming language"],
               1),
      Question("Which HTTP method is used to request data from a server?",
               ["POST", "PUT", "GET", "DELETE"],
               2),
      Question("What does the 'res' object represent in Express.js?",
               ["Request from the client",
                "Response to the client",
                "Results from database",
                "Runtime Environment Settings"],
               1) ]
  }

  /** generateMCQs: writes the mock set as the file of uid, overwriting it;
      the files of other users are untouched. */
  method GenerateMcqs(db: Database, pdfPath: string, uid: string) returns (qs: seq<Question>)
    requires db.Valid()
    modifies db`mcqFiles
    ensures db.Valid()
    ensures qs == MockQuestions(pdfPath)
    ensures db.mcqFiles == old(db.mcqFiles)[uid := qs]
  {
    qs := MockQuestions(pdfPath);
    db.mcqFiles := db.mcqFiles[uid := qs];
  }

  /** generate-and-get-mcq. Without a uid or without an uploaded document the
      reply is 400, for a uid not in users 404, and nothing is stored; otherwise
      the mock set is stored for uid and returned. No table changes.
      `document` is the path the upload was saved under, if there was one. */
  method GenerateAndGetMcq(db: Database, uid: string, document: Option<string>) returns (r: Result<seq<Question>>)
    requires db.Valid()
    modifies db`mcqFiles
    ensures db.Valid()
    ensures uid == "" ==> r == Err(MissingFields)
    ensures uid != "" && document.None? ==> r == Err(MissingDocument)
    ensures uid != "" && document.Some? && uid !in db.users ==> r == Err(UserNotFound)
    ensures r.Err? ==> db.mcqFiles == old(db.mcqFiles)
    ensures uid != "" && document.Some? && uid in db.users ==>
              var qs := MockQuestions(document.value);
              r == Ok(qs) && db.mcqFiles == old(db.mcqFiles)[uid := qs]
  {
    if uid == "" {
      return Err(MissingFields);
    }
    if document.None? {
      return Err(MissingDocument);
    }
    if uid !in db.users {
      return Err(UserNotFound);
    }
    var mcqs := GenerateMcqs(db, document.value, uid);
    r := Ok(mcqs);
  }

  /** The replacement question: its text carries the clock reading, its four
      options are fixed, and its answer is `Math.floor(random * 4)` for the
      draw `random` in [0, 1). */
  function RegeneratedQuestion(now: nat, random: real): (q: Question)
    requires 0.0 <= random < 1.0
    ensures WellFormed(q)
    ensures |q.question| > 17 && q.question[..17] == "Updated question "
    ensures q.question[17..] == Decimal(now)
    ensures ParseDecimal(q.question[17..]) == now
  {
    var text := "Updated question " + Decimal(now);
    assert text[17..] == Decimal(now);
    ParseDecimalOfDecimal(now);
    Question(text, ["New option A", "New option B", "New option C", "New option D"], (random * 4.0).Floor)
  }

  /** `UPDATE tests SET questions = qs WHERE uid = ? AND expiry_time > ?`. */
  function PatchActive(tests: seq<TestRow>, uid: string, now: int, qs: seq<Question>): (r: seq<TestRow>)
    ensures |r| == |tests|
    ensures forall i :: 0 <= i < |tests| ==>
              r[i] == if ActiveFor(tests[i], uid, now) then tests[i].(questions := qs) else tests[i]
  {
    if tests == [] then []
    else
      [if ActiveFor(tests[0], uid, now) then tests[0].(questions := qs) else tests[0]]
        + PatchActive(tests[1..], uid, now, qs)
  }

  /** The update changes no test's id, owner, password or expiry time, so the
      set of test ids is the same and stays duplicate-free. */
  lemma PatchActiveKeepsSessions(tests: seq<TestRow>, uid: string, now: int, qs: seq<Question>)
    ensures TestIds(PatchActive(tests, uid, now, qs)) == TestIds(tests)
    ensures TidsDistinct(tests) ==> TidsDistinct(PatchActive(tests, uid, now, qs))
  {
    var r := PatchActive(tests, uid, now, qs);
    forall id | id in TestIds(tests) ensures id in TestIds(r) {
      var t :| t in tests && t.tid == id;
      var i :| 0 <= i < |tests| && tests[i] == t;
      assert r[i].tid == id;
    }
    forall id | id in TestIds(r) ensures id in TestIds(tests) {
      var t :| t in r && t.tid == id;
      var i :| 0 <= i < |r| && r[i] == t;
      assert tests[i].tid == id;
    }
  }

  /** join-test after a regeneration: the test matching an id and password is
      the same row as before, carrying the regenerated set exactly when it
      belongs to uid and had not expired at the time of the regeneration. */
  lemma {:induction false} JoinSeesRegenerated(tests: seq<TestRow>, uid: string, now: int, qs: seq<Question>,
                                               tid: string, password: string)
    ensures FindTest(PatchActive(tests, uid, now, qs), tid, password) ==
            match FindTest(tests, tid, password)
            case None => None
            case Some(t) => Some(if ActiveFor(t, uid, now) then t.(questions := qs) else t)
  {
    if tests != [] {
      var r := PatchActive(tests, uid, now, qs);
      assert r[1..] == PatchActive(tests[1..], uid, now, qs);
      JoinSeesRegenerated(tests[1..], uid, now, qs, tid, password);
    }
  }

  /** Every unexpired test of uid carries the regenerated set afterwards, and
      no other user's tests change at all. */
  lemma {:induction false} PatchActiveScope(tests: seq<TestRow>, uid: string, now: int, qs: seq<Question>)
    ensures forall t :: t in ActiveTests(PatchActive(tests, uid, now, qs), uid, now) ==> t.questions == qs
    ensures forall other, later :: other != uid ==>
              ActiveTests(PatchActive(tests, uid, now, qs), other, later) == ActiveTests(tests, other, later)
  {
    if tests != [] {
      var r := PatchActive(tests, uid, now, qs);
      assert r[1..] == PatchActive(tests[1..], uid, now, qs);
      PatchActiveScope(tests[1..], uid, now, qs);
    }
  }

  lemma ReplaceKeepsWellFormed(qs: seq<Question>, i: int, q: Question)
    requires 0 <= i < |qs| && AllWellFormed(qs) && WellFormed(q)
    ensures AllWellFormed(qs[i := q])
  {
  }

  /** The update keeps the database invariant on the tests and history tables. */
  lemma PatchActiveKeepsValid(tests: seq<TestRow>, history: seq<HistoryRow>, users: map<string, UserRow>,
                              uid: string, now: int, qs: seq<Question>)
    requires TidsDistinct(tests) && AllWellFormed(qs)
    requires forall t :: t in tests ==> t.uid in users && AllWellFormed(t.questions)
    requires forall e :: e in history ==> e.tid in TestIds(tests)
    ensures var r := PatchActive(tests, uid, now, qs);
            && TidsDistinct(r)
            && (forall t :: t in r ==> t.uid in users && AllWellFormed(t.questions))
            && (forall e :: e in history ==> e.tid in TestIds(r))
  {
    var r := PatchActive(tests, uid, now, qs);
    PatchActiveKeepsSessions(tests, uid, now, qs);
    forall t | t in r ensures t.uid in users && AllWellFormed(t.questions) {
      var i :| 0 <= i < |r| && r[i] == t;
      assert tests[i] in tests;
    }
  }

  /** regenerate-question. The checks run in this order: uid given and index
      not undefined (400; an index of 0 is accepted), the user exists (404),
      a question set is stored (404), 0 <= index < its length (400). Then the
      question at index is replaced, the file rewritten, and the updated set
      copied into the user's unexpired tests. */
  method RegenerateQuestion(db: Database, uid: string, index: Option<int>, now: nat, random: real)
    returns (r: Result<seq<Question>>)
    requires db.Valid()
    requires 0.0 <= random < 1.0
    modifies db`mcqFiles, db`tests
    ensures db.Valid()
    ensures uid == "" || index.None? ==> r == Err(MissingFields)
    ensures uid != "" && index.Some? && uid !in db.users ==> r == Err(UserNotFound)
    ensures (uid != "" && index.Some? && uid in db.users && uid !in old(db.mcqFiles)) ==> r == Err(NoQuestionSet)
    ensures (uid != "" && index.Some? && uid in db.users && uid in old(db.mcqFiles) &&
             !(0 <= index.value < |old(db.mcqFiles)[uid]|)) ==> r == Err(InvalidIndex)
    ensures (uid != "" && index.Some? && uid in db.users && uid in old(db.mcqFiles) &&
             0 <= index.value < |old(db.mcqFiles)[uid]|) ==> r.Ok?
    ensures r.Err? ==> db.mcqFiles == old(db.mcqFiles) && db.tests == old(db.tests)
    ensures r.Ok? ==>
              var before := old(db.mcqFiles)[uid];
              && |r.value| == |before|
              && r.value[index.value] == RegeneratedQuestion(now, random)
              && (forall j :: 0 <= j < |before| && j != index.value ==> r.value[j] == before[j])
              && db.mcqFiles == old(db.mcqFiles)[uid := r.value]
              && db.tests == PatchActive(old(db.tests), uid, now, r.value)
  {
    if uid == "" || index.None? {
      return Err(MissingFields);
    }
    if uid !in db.users {
      return Err(UserNotFound);
    }
    if uid !in db.mcqFiles {
      return Err(NoQuestionSet);
    }
    var stored := db.mcqFiles[uid];
    var i := index.value;
    if i < 0 || i >= |stored| {
      return Err(InvalidIndex);
    }
    // JSON.parse gives a fresh array, which is updated in place
    var mcqs := new Question[|stored|](k requires 0 <= k < |stored| => stored[k]);
    var q := RegeneratedQuestion(now, random);
    mcqs[i] := q;
    var updated := mcqs[..];
    assert updated == stored[i := q];
    ReplaceKeepsWellFormed(stored, i, q);
    PatchActiveKeepsValid(db.tests, db.history, db.users, uid, now, updated);
    db.mcqFiles := db.mcqFiles[uid := updated];
    db.tests := PatchActive(db.tests, uid, now, updated);
    r := Ok(updated);
  }
}
