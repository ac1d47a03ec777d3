/** Client code that drives the handlers through a typical life of a test,
    using only their contracts. User u1 starts a 30-minute test at t = 1000 ms,
    which expires at 1801000; u2 joins it at t = 500000 and is refused at
    t = 2000000. */
module Scenarios {
  import opened Outcomes
  import opened Encoding
  import opened Store
  import opened TestRoutes
  import opened McqRoutes

  /** A second start-test before the first test expires reports the first
      test's id and password and inserts nothing. */
  method StartTwice(db: Database, bytes: seq<byte>, otherBytes: seq<byte>)
    requires db.Valid() && |bytes| == 3 && |otherBytes| == 3
    requires "u1" in db.users && "u1" in db.mcqFiles && db.tests == []
    modifies db
  {
    var started := StartTest(db, "u1", Some(30), 1000, "t1", bytes);
    assert started == Ok(Session("t1", Hex(bytes), 1801000));

    StartedTestIsOnlyActive([], db.tests[0], 1000, 500000);
    var tests := db.tests;
    var retried := StartTest(db, "u1", Some(30), 500000, "t2", otherBytes);
    assert retried == Err(ActiveTestExists("t1", Hex(bytes))) && db.tests == tests;
  }

  /** A join before the expiry time gets the test's questions and records the
      join; a join after it is refused and records nothing. */
  method JoinBeforeAndAfterExpiry(db: Database, password: string, questions: seq<Question>)
    requires db.Valid() && password != ""
    requires "u2" in db.users && db.history == []
    requires db.tests == [TestRow("t1", "u1", password, questions, 1801000)]
    modifies db
  {
    var joined := JoinTest(db, "t1", password, "u2", 500000);
    assert joined == Ok(Joined(questions, 1801000));
    assert db.history == [HistoryRow("t1", "u2", true, 500000)];

    var late := JoinTest(db, "t1", password, "u2", 2000000);
    assert late == Err(TestExpired);
    var wrong := JoinTest(db, "t1", password + "0", "u2", 500000);
    assert wrong == Err(BadCredentials);
    assert db.history == [HistoryRow("t1", "u2", true, 500000)];
  }

  /** Joining twice keeps one history row for the pair, with the later time. */
  method JoinTwice(db: Database, password: string, questions: seq<Question>)
    requires db.Valid() && password != ""
    requires "u2" in db.users && db.history == []
    requires db.tests == [TestRow("t1", "u1", password, questions, 1801000)]
    modifies db
  {
    var joined := JoinTest(db, "t1", password, "u2", 500000);
    assert joined.Ok?;
    joined := JoinTest(db, "t1", password, "u2", 600000);
    assert joined.Ok?;
    assert db.history == [HistoryRow("t1", "u2", true, 600000)];
  }

  /** A test keeps the questions it was started with when the owner generates
      a new set afterwards. */
  method SnapshotSurvivesGeneration(db: Database, pdf: string, password: string, clock: nat)
    requires db.Valid() && password != "" && clock < 603000
    requires "u1" in db.users && "u2" in db.users && "u1" in db.mcqFiles
    requires db.tests == [TestRow("t1", "u1", password, db.mcqFiles["u1"], 603000)]
    modifies db
  {
    var row := db.tests[0];
    var generated := GenerateAndGetMcq(db, "u1", Some(pdf));
    assert db.tests == [row];
    var joined := JoinTest(db, "t1", password, "u2", clock);
    assert joined == Ok(Joined(row.questions, 603000));
  }

  /** A regenerated question reaches the owner's unexpired test, and join-test
      then answers with the updated set. */
  method JoinAfterRegeneration(db: Database, password: string, clock: nat, draw: real)
    requires db.Valid() && password != "" && clock < 603000 && 0.0 <= draw < 1.0
    requires "u1" in db.users && "u2" in db.users && "u1" in db.mcqFiles && |db.mcqFiles["u1"]| == 3
    requires db.tests == [TestRow("t1", "u1", password, db.mcqFiles["u1"], 603000)]
    modifies db
  {
    var again := RegenerateQuestion(db, "u1", Some(2), clock, draw);
    var patched := TestRow("t1", "u1", password, again.value, 603000);
    assert db.tests[0] == patched;
    assert db.tests == [patched];
    var joined := JoinTest(db, "t1", password, "u2", clock);
    assert joined == Ok(Joined(again.value, 603000));
  }

  /** An index past the end of the set is refused and changes nothing; the
      index 0 is accepted. */
  method IndexBounds(db: Database, clock: nat, draw: real)
    requires db.Valid() && 0.0 <= draw < 1.0
    requires "u1" in db.users && "u1" in db.mcqFiles && |db.mcqFiles["u1"]| == 3
    modifies db
  {
    var files, tests := db.mcqFiles, db.tests;
    var bad := RegenerateQuestion(db, "u1", Some(3), clock, draw);
    assert bad == Err(InvalidIndex) && db.mcqFiles == files && db.tests == tests;
    var first := RegenerateQuestion(db, "u1", Some(0), clock, draw);
    assert first.Ok?;
  }
}
