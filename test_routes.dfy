/** The test-session routes: start-test creates a timed, password-protected
    session over a snapshot of the owner's question set; is-test-active asks
    whether a user owns an unexpired session; join-test admits a user to a
    session by id and password before it expires, recording the join in the
    history table. Each handler runs as one atomic step against `db`; the
    clock, the generated test id and the random password bytes are inputs. */
module TestRoutes {
  import opened Outcomes
  import opened Encoding
  import opened Store

  /** The reply of a successful start-test. */
  datatype Session = Session(testId: string, password: string, expiryTime: int)

  /** The reply of a successful join-test. */
  datatype Joined = Joined(questions: seq<Question>, expiryTime: int)

  /** `!expiry` is false: the duration was sent and is not the number 0. */
  predicate Truthy(expiry: Option<int>)
  {
    expiry.Some? && expiry.value != 0
  }

  /** The expiry time of a test started at now for the given number of minutes. */
  function ExpiryTime(now: int, minutes: int): int
  {
    now + minutes * 60 * 1000
  }

  // ---------------------------------------------------------------- start-test

  /** start-test. The checks run in this order: both fields given (400), the
      user exists (404), the user has no unexpired test (400 with that test's id
      and password), a question set is stored (404). Only then is one row
      inserted; a tid already in the table violates its UNIQUE constraint (500). */
  method StartTest(db: Database, uid: string, expiry: Option<int>, now: nat, tid: string, randomBytes: seq<byte>)
    returns (r: Result<Session>)
    requires db.Valid()
    requires |randomBytes| == 3
    modifies db`tests
    ensures db.Valid()
    ensures uid == "" || !Truthy(expiry) ==> r == Err(MissingFields)
    ensures uid != "" && Truthy(expiry) && uid !in db.users ==> r == Err(UserNotFound)
    ensures uid != "" && Truthy(expiry) && uid in db.users && ActiveTests(old(db.tests), uid, now) != [] ==>
              var first := ActiveTests(old(db.tests), uid, now)[0];
              r == Err(ActiveTestExists(first.tid, first.password))
    ensures (uid != "" && Truthy(expiry) && uid in db.users && ActiveTests(old(db.tests), uid, now) == [] &&
             uid !in db.mcqFiles) ==> r == Err(NoQuestionSet)
    ensures (uid != "" && Truthy(expiry) && uid in db.users && ActiveTests(old(db.tests), uid, now) == [] &&
             uid in db.mcqFiles && tid in TestIds(old(db.tests))) ==> r == Err(StorageFailure)
    ensures (uid != "" && Truthy(expiry) && uid in db.users && ActiveTests(old(db.tests), uid, now) == [] &&
             uid in db.mcqFiles && tid !in TestIds(old(db.tests))) ==> r.Ok?
    ensures r.Err? ==> db.tests == old(db.tests)
    ensures r.Ok? ==>
              && r.value == Session(tid, Hex(randomBytes), ExpiryTime(now, expiry.value))
              && |r.value.password| == 6
              && db.tests == old(db.tests) + [TestRow(tid, uid, r.value.password, db.mcqFiles[uid], r.value.expiryTime)]
  {
    if uid == "" || !Truthy(expiry) {
      return Err(MissingFields);
    }
    if uid !in db.users {
      return Err(UserNotFound);
    }
    var active := ActiveTests(db.tests, uid, now);
    if |active| > 0 {
      return Err(ActiveTestExists(active[0].tid, active[0].password));
    }
    if uid !in db.mcqFiles {
      return Err(NoQuestionSet);
    }
    var mcqs := db.mcqFiles[uid];
    var password := Hex(randomBytes);
    var expiryTime := ExpiryTime(now, expiry.value);
    if tid in TestIds(db.tests) {
      return Err(StorageFailure);
    }
    var row := TestRow(tid, uid, password, mcqs, expiryTime);
    InsertKeepsValid(db.tests, db.history, row);
    db.tests := db.tests + [row];
    r := Ok(Session(tid, password, expiryTime));
  }

  /** Appending a row with a fresh tid keeps the tids distinct and every
      history row's tid present. */
  lemma InsertKeepsValid(tests: seq<TestRow>, history: seq<HistoryRow>, row: TestRow)
    requires TidsDistinct(tests) && row.tid !in TestIds(tests)
    requires forall e :: e in history ==> e.tid in TestIds(tests)
    ensures TidsDistinct(tests + [row])
    ensures TestIds(tests + [row]) == TestIds(tests) + {row.tid}
    ensures forall e :: e in history ==> e.tid in TestIds(tests + [row])
  {
    var all := tests + [row];
    forall i, j | 0 <= i < j < |all| ensures all[i].tid != all[j].tid {
      if j == |tests| {
        assert all[i] in tests;
      }
    }
  }

  /** The active tests of a table with one more row are those of the table,
      followed by the new row if it is active. */
  lemma {:induction false} ActiveTestsAppend(tests: seq<TestRow>, row: TestRow, uid: string, now: int)
    ensures ActiveTests(tests + [row], uid, now) ==
            ActiveTests(tests, uid, now) + (if ActiveFor(row, uid, now) then [row] else [])
  {
    if tests == [] {
      assert ActiveTests([row][1..], uid, now) == [];
    } else {
      assert (tests + [row])[1..] == tests[1..] + [row];
      ActiveTestsAppend(tests[1..], row, uid, now);
    }
  }

  /** A user with no unexpired test at now has none at any later time. */
  lemma NoneActiveLater(tests: seq<TestRow>, uid: string, now: int, later: int)
    requires ActiveTests(tests, uid, now) == [] && now <= later
    ensures ActiveTests(tests, uid, later) == []
  {
  }

  /** After a successful start-test, the new test is the owner's only
      unexpired test until it expires: a second start-test in that window is
      refused with this test's id and password. */
  lemma StartedTestIsOnlyActive(tests: seq<TestRow>, row: TestRow, now: int, later: int)
    requires ActiveTests(tests, row.uid, now) == []
    requires now <= later < row.expiryTime
    ensures ActiveTests(tests + [row], row.uid, later) == [row]
  {
    NoneActiveLater(tests, row.uid, now, later);
    ActiveTestsAppend(tests, row, row.uid, later);
  }

  // ------------------------------------------------------------ is-test-active

  /** is-test-active: 400 without a uid, otherwise whether some test of the
      user expires after now. Reads the tests table only. */
  function IsTestActive(db: Database, uid: string, now: int): (r: Result<bool>)
    reads db
    ensures r.Err? <==> uid == ""
    ensures r.Err? ==> r.error == MissingFields
    ensures r.Ok? ==> (r.value <==> exists t :: t in db.tests && ActiveFor(t, uid, now))
  {
    if uid == "" then Err(MissingFields)
    else
      var active := ActiveTests(db.tests, uid, now);
      assert active != [] ==> active[0] in active;
      Ok(|active| > 0)
  }

  // ----------------------------------------------------------------- join-test

  /** `UPDATE history SET joined = TRUE, joined_at = now WHERE tid = ? AND uid = ?`. */
  function MarkJoined(history: seq<HistoryRow>, tid: string, uid: string, now: int): (r: seq<HistoryRow>)
    ensures |r| == |history|
    ensures forall i :: 0 <= i < |history| ==>
              r[i] == if history[i].tid == tid && history[i].uid == uid
                      then HistoryRow(tid, uid, true, now) else history[i]
  {
    if history == [] then []
    else
      var h := history[0];
      [if h.tid == tid && h.uid == uid then HistoryRow(tid, uid, true, now) else h]
        + MarkJoined(history[1..], tid, uid, now)
  }

  /** The history table after a join: the existing rows for (tid, uid) are
      marked joined, or one joined row is inserted when there is none. */
  function Upsert(history: seq<HistoryRow>, tid: string, uid: string, now: int): (r: seq<HistoryRow>)
    ensures exists i :: 0 <= i < |r| && r[i] == HistoryRow(tid, uid, true, now)
  {
    if HasEntry(history, tid, uid) then
      var k :| 0 <= k < |history| && history[k].tid == tid && history[k].uid == uid;
      var r := MarkJoined(history, tid, uid, now);
      assert r[k] == HistoryRow(tid, uid, true, now);
      r
    else
      var r := history + [HistoryRow(tid, uid, true, now)];
      assert r[|history|] == HistoryRow(tid, uid, true, now);
      r
  }

  /** The upsert never creates a second row for a (tid, uid) pair. */
  lemma UpsertKeepsJoinsDistinct(history: seq<HistoryRow>, tid: string, uid: string, now: int)
    requires JoinsDistinct(history)
    ensures JoinsDistinct(Upsert(history, tid, uid, now))
  {
    var r := Upsert(history, tid, uid, now);
    if !HasEntry(history, tid, uid) {
      forall i, j | 0 <= i < j < |r| ensures !(r[i].tid == r[j].tid && r[i].uid == r[j].uid) {
        if j == |history| {
          assert !(history[i].tid == tid && history[i].uid == uid);
        }
      }
    }
  }

  /** After a join, the pair (tid, uid) has exactly one history row, joined at
      now; every row of any other pair is as it was, and the table grows only
      when the pair had no row. */
  lemma UpsertRecordsJoin(history: seq<HistoryRow>, tid: string, uid: string, now: int)
    requires JoinsDistinct(history)
    ensures var r := Upsert(history, tid, uid, now);
            && (exists i :: 0 <= i < |r| && r[i] == HistoryRow(tid, uid, true, now))
            && (forall i, j :: (0 <= i < |r| && 0 <= j < |r| && r[i].tid == tid && r[i].uid == uid &&
                                 r[j].tid == tid && r[j].uid == uid) ==> i == j)
            && (forall i :: 0 <= i < |r| && !(r[i].tid == tid && r[i].uid == uid) ==> i < |history| && r[i] == history[i])
            && |r| == if HasEntry(history, tid, uid) then |history| else |history| + 1
  {
    var r := Upsert(history, tid, uid, now);
    UpsertKeepsJoinsDistinct(history, tid, uid, now);
    if HasEntry(history, tid, uid) {
      var k :| 0 <= k < |history| && history[k].tid == tid && history[k].uid == uid;
      assert r[k] == HistoryRow(tid, uid, true, now);
    } else {
      assert r[|history|] == HistoryRow(tid, uid, true, now);
    }
  }

  /** join-test. The checks run in this order: all three fields given (400),
      a test matches the id and password (401), that test has not expired
      (400). Then the history row is updated, or inserted; an insert for a uid
      that is not in users violates the history table's foreign key (500). The
      reply carries the test's current questions and expiry time. */
  method JoinTest(db: Database, testId: string, password: string, uid: string, now: nat)
    returns (r: Result<Joined>)
    requires db.Valid()
    modifies db`history
    ensures db.Valid()
    ensures testId == "" || password == "" || uid == "" ==> r == Err(MissingFields)
    ensures testId != "" && password != "" && uid != "" && FindTest(db.tests, testId, password).None? ==>
              r == Err(BadCredentials)
    ensures testId != "" && password != "" && uid != "" && FindTest(db.tests, testId, password).Some? ==>
              var test := FindTest(db.tests, testId, password).value;
              && (test.expiryTime <= now ==> r == Err(TestExpired))
              && (test.expiryTime > now && !HasEntry(old(db.history), testId, uid) && uid !in db.users ==>
                    r == Err(StorageFailure))
              && (test.expiryTime > now && (HasEntry(old(db.history), testId, uid) || uid in db.users) ==>
                    r == Ok(Joined(test.questions, test.expiryTime)))
    ensures r.Err? ==> db.history == old(db.history)
    ensures r.Ok? ==> db.history == Upsert(old(db.history), testId, uid, now)
  {
    if testId == "" || password == "" || uid == "" {
      return Err(MissingFields);
    }
    var found := FindTest(db.tests, testId, password);
    if found.None? {
      return Err(BadCredentials);
    }
    var test := found.value;
    if test.expiryTime <= now {
      return Err(TestExpired);
    }
    UpsertKeepsJoinsDistinct(db.history, testId, uid, now);
    if !HasEntry(db.history, testId, uid) {
      if uid !in db.users {
        return Err(StorageFailure);
      }
      db.history := db.history + [HistoryRow(testId, uid, true, now)];
    } else {
      db.history := MarkJoined(db.history, testId, uid, now);
    }
    r := Ok(Joined(test.questions, test.expiryTime));
  }
}
