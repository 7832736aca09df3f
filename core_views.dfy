/**
 * The test-taking view: each request starts or resumes the user's open
 * attempt at a test, then serves the first unanswered question or, when
 * none is left, scores the attempt and pays the prize on a first pass.
 * A POST also binds the submitted answer to the served slot.
 */
module CoreViews {
  import opened Wrappers
  import opened UsersModels
  import opened CoreModels
  import opened Database
  import opened Http

  /** What `get_queryset` hands on: the question to ask, or the finished attempt. */
  datatype Served = Question(question: QuestionId) | Finished

  /** The form's validation: the posted answer must name an existing answer, of any question. */
  predicate ValidAnswer(answers: map<AnswerId, bool>, answer: Option<AnswerId>)
  {
    answer.Some? && answer.value in answers
  }

  /** One request to the test page; the fields are the ones the view sets on itself as it goes. */
  class TestDetailView {
    const db: Db
    /** The requesting user and the test's key from the URL. */
    const user: UserId
    const pk: TestId
    var test: Test
    /** Position of this request's attempt in the attempt table. */
    var attempt: nat
    /** Position of the slot being served; None once every slot has an answer. */
    var testingData: Option<nat>
    /** The aggregate over the slots: correct answers, slots, and the percentage. */
    var correct: nat
    var total: nat
    var percent: real
    var rePassingTest: bool

    constructor (db: Db, user: UserId, pk: TestId)
      ensures this.db == db && this.user == user && this.pk == pk
    {
      this.db := db;
      this.user := user;
      this.pk := pk;
      test := Test([], 0, 0);
      attempt := 0;
      testingData := None;
      correct, total, percent := 0, 0, 0.0;
      rePassingTest := false;
    }

    /** The view's attempt is a row of the requesting user at the requested test. */
    ghost predicate Bound()
      reads this, db
    {
      && pk in db.tests && test == db.tests[pk]
      && attempt < |db.attempts|
      && db.attempts[attempt].subject == user && db.attempts[attempt].test == pk
    }

    /**
     * The start-or-resume step took the attempt table from `before` to
     * `after`: the open attempt of this user at this test is resumed, or,
     * when there is none, a new one is appended with one empty slot per
     * question.
     */
    ghost predicate StartedFrom(before: seq<Attempt>, after: seq<Attempt>)
      reads this, db
    {
      && pk in db.tests && test == db.tests[pk]
      && attempt < |after| && IsOpen(after[attempt])
      && after[attempt].subject == user && after[attempt].test == pk
      && match FindOpen(before, user, pk)
         case Some(i) => after == before && attempt == i
         case None =>
           && attempt == |before|
           && after == before + [Attempt(user, pk, None, false, after[attempt].slots)]
           && FreshSlots(after[attempt].slots, test.questions)
    }

    /**
     * The scoring step took the attempt at `attempt` from `before` to its
     * finished form, and the wallet table and reward log from the given
     * values to their new ones: paid iff the attempt passed and the user had
     * no earlier successful attempt at this test.
     */
    ghost predicate FinishedBy(before: seq<Attempt>, walletsBefore: map<UserId, Wallet>,
                               rewardedBefore: seq<(UserId, TestId)>)
      reads this, db
      requires attempt < |before|
    {
      && correct == CountCorrect(before[attempt].slots, db.answers)
      && total == |before[attempt].slots|
      && percent == Percent(correct, total)
      && db.attempts == before[attempt := Finalized(before[attempt], db.answers, test.percentSuccess)]
      && rePassingTest == HasSuccess(before, user, pk)
      && if !rePassingTest && Passes(test.percentSuccess, percent)
         then db.wallets == CreditOwner(walletsBefore, user, test.prize) && db.rewarded == rewardedBefore + [(user, pk)]
         else db.wallets == walletsBefore && db.rewarded == rewardedBefore
    }

    /** `get_testing_data`: look the test up (404 when missing), then get or create the open attempt. */
    method GetTestingData() returns (found: bool)
      requires db.Valid()
      modifies this`test, this`attempt, db`attempts
      ensures db.Valid()
      ensures found <==> pk in db.tests
      ensures !found ==> db.attempts == old(db.attempts)
      ensures found ==> Bound() && StartedFrom(old(db.attempts), db.attempts)
      ensures Extends(old(db.attempts), db.attempts)
    {
      if pk !in db.tests {
        return false;
      }
      test := db.tests[pk];
      var open := FindOpen(db.attempts, user, pk);
      if open.Some? {
        attempt := open.value;
      } else {
        var slots := BuildSlots(test.questions);
        OpenPreservesValid(db.attempts, db.tests, db.answers, user, pk, slots);
        attempt := |db.attempts|;
        db.attempts := db.attempts + [Attempt(user, pk, None, false, slots)];
      }
      found := true;
    }

    /** `get_queryset`: serve the first empty slot's question, or score the attempt when there is none. */
    method GetQueryset() returns (served: Served)
      requires db.Valid() && Bound() && IsOpen(db.attempts[attempt])
      modifies this`testingData, this`correct, this`total, this`percent, this`rePassingTest
      modifies db`attempts, db`wallets, db`rewarded
      ensures db.Valid() && Bound()
      ensures testingData == FirstEmpty(old(db.attempts[attempt].slots))
      ensures testingData.Some? ==>
                && served == Question(db.attempts[attempt].slots[testingData.value].question)
                && db.attempts == old(db.attempts) && db.wallets == old(db.wallets) && db.rewarded == old(db.rewarded)
      ensures testingData.None? ==>
                served == Finished && FinishedBy(old(db.attempts), old(db.wallets), old(db.rewarded))
      ensures Extends(old(db.attempts), db.attempts)
    {
      testingData := FirstEmpty(db.attempts[attempt].slots);
      if testingData.None? {
        CreateTestingResult();
        return Finished;
      }
      return Question(db.attempts[attempt].slots[testingData.value].question);
    }

    /** `create_testing_result`: count correct answers and slots, turn them into a percentage, then record it. */
    method CreateTestingResult()
      requires db.Valid() && Bound() && IsOpen(db.attempts[attempt])
      modifies this`correct, this`total, this`percent, this`rePassingTest
      modifies db`attempts, db`wallets, db`rewarded
      ensures db.Valid() && Bound()
      ensures FinishedBy(old(db.attempts), old(db.wallets), old(db.rewarded))
      ensures Extends(old(db.attempts), db.attempts)
    {
      correct := CountCorrect(db.attempts[attempt].slots, db.answers);
      total := |db.attempts[attempt].slots|;
      percent := Percent(correct, total);
      AddedAttemptsData();
    }

    /**
     * `added_attempts_data`: check for an earlier successful attempt before
     * saving this one, save result and success, and pay the prize on a
     * first pass.
     */
    method AddedAttemptsData()
      requires db.Valid() && Bound() && IsOpen(db.attempts[attempt])
      requires correct == CountCorrect(db.attempts[attempt].slots, db.answers)
      requires total == |db.attempts[attempt].slots| && percent == Percent(correct, total)
      modifies this`rePassingTest, db`attempts, db`wallets, db`rewarded
      ensures db.Valid() && Bound()
      ensures FinishedBy(old(db.attempts), old(db.wallets), old(db.rewarded))
      ensures Extends(old(db.attempts), db.attempts)
    {
      rePassingTest := HasSuccess(db.attempts, user, pk);
      ghost var before := db.attempts;
      FinalizePreservesValid(db.attempts, db.tests, db.answers, attempt);
      var a := db.attempts[attempt].(result := Some(percent));
      a := a.(success := test.percentSuccess as real <= percent);
      db.attempts := db.attempts[attempt := a];
      if !rePassingTest && a.success {
        RewardOnce(db.rewarded, before, db.attempts, user, pk);
        GetCoinsInWallet();
      }
    }

    /** `get_coins_in_wallet`: add the prize to both counters of the user's wallet, if the user has one. */
    method GetCoinsInWallet()
      requires db.Valid() && pk in db.tests && test == db.tests[pk]
      requires HasSuccess(db.attempts, user, pk) && (user, pk) !in db.rewarded
      modifies db`wallets, db`rewarded
      ensures db.Valid()
      ensures db.wallets == CreditOwner(old(db.wallets), user, test.prize)
      ensures db.rewarded == old(db.rewarded) + [(user, pk)]
    {
      if user in db.wallets {
        db.wallets := db.wallets[user := Credit(db.wallets[user], test.prize)];
      }
      db.rewarded := db.rewarded + [(user, pk)];
    }

    /** GET: start or resume, then show the next question or the finished attempt. */
    method Get() returns (resp: Response, ghost started: seq<Attempt>)
      requires db.Valid()
      modifies this, db`attempts, db`wallets, db`rewarded
      ensures db.Valid()
      ensures resp == NotFound <==> pk !in db.tests
      ensures pk !in db.tests ==>
                db.attempts == old(db.attempts) && db.wallets == old(db.wallets) && db.rewarded == old(db.rewarded)
      ensures pk in db.tests ==>
                && StartedFrom(old(db.attempts), started)
                && testingData == FirstEmpty(started[attempt].slots)
      ensures pk in db.tests && testingData.Some? ==>
                && resp == ShowQuestion(started[attempt].slots[testingData.value].question)
                && db.attempts == started && db.wallets == old(db.wallets) && db.rewarded == old(db.rewarded)
      ensures pk in db.tests && testingData.None? ==>
                && FinishedBy(started, old(db.wallets), old(db.rewarded))
                && resp == ShowResult(percent, db.attempts[attempt].success, rePassingTest)
      ensures Extends(old(db.attempts), db.attempts)
    {
      started := db.attempts;
      var found := GetTestingData();
      if !found {
        return NotFound, started;
      }
      started := db.attempts;
      var served := GetQueryset();
      match served
      case Question(q) =>
        resp := ShowQuestion(q);
      case Finished =>
        resp := ShowResult(percent, db.attempts[attempt].success, rePassingTest);
    }

    /**
     * POST: start or resume and serve as GET does, then bind the posted
     * answer to the served slot when the form is valid. With no slot left
     * to serve the attempt has just been scored, and saving a valid form
     * inserts a slot row without attempt or question, which the database
     * refuses.
     */
    method Post(answer: Option<AnswerId>) returns (resp: Response, ghost started: seq<Attempt>)
      requires db.Valid()
      modifies this, db`attempts, db`wallets, db`rewarded
      ensures db.Valid()
      ensures resp == NotFound <==> pk !in db.tests
      ensures pk !in db.tests ==>
                db.attempts == old(db.attempts) && db.wallets == old(db.wallets) && db.rewarded == old(db.rewarded)
      ensures pk in db.tests ==>
                && StartedFrom(old(db.attempts), started)
                && testingData == FirstEmpty(started[attempt].slots)
      ensures pk in db.tests && testingData.Some? ==>
                && db.wallets == old(db.wallets) && db.rewarded == old(db.rewarded)
                && if ValidAnswer(db.answers, answer)
                   then resp == Redirect(TestDetail(pk))
                        && db.attempts == started[attempt := started[attempt].(slots :=
                             Answered(started[attempt].slots, testingData.value, answer.value))]
                   else resp == FormInvalid && db.attempts == started
      ensures pk in db.tests && testingData.None? ==>
                && FinishedBy(started, old(db.wallets), old(db.rewarded))
                && resp == if ValidAnswer(db.answers, answer) then ServerError else FormInvalid
      ensures Extends(old(db.attempts), db.attempts)
    {
      started := db.attempts;
      var found := GetTestingData();
      if !found {
        return NotFound, started;
      }
      started := db.attempts;
      var served := GetQueryset();
      if !ValidAnswer(db.answers, answer) {
        return FormInvalid, started;
      }
      if testingData.None? {
        return ServerError, started;
      }
      var k := testingData.value;
      AnswerPreservesValid(db.attempts, db.tests, db.answers, attempt, k, answer.value);
      db.attempts := db.attempts[attempt := db.attempts[attempt].(slots := Answered(db.attempts[attempt].slots, k, answer.value))];
      resp := Redirect(TestDetail(pk));
    }
  }
}
