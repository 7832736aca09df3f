/**
 * The quiz app's entities as the test-taking view uses them, and the pure
 * rules behind it: which slot is served next, how an attempt is scored,
 * when it passes, and the invariants the attempt table keeps.
 */
module CoreModels {
  import opened Wrappers
  import opened UsersModels

  type TestId = nat
  type QuestionId = nat
  type AnswerId = nat

  /** A test: its questions in listing order, the prize and the pass mark in percent. */
  datatype Test = Test(questions: seq<QuestionId>, prize: nat, percentSuccess: nat)

  /** An answer slot (a TestingData row): its question and the answer chosen, if any. */
  datatype Slot = Slot(question: QuestionId, answer: Option<AnswerId>)

  /** An attempt row with its slots in creation order; `result` stays unset until the attempt is finished. */
  datatype Attempt = Attempt(subject: UserId, test: TestId, result: Option<real>, success: bool, slots: seq<Slot>)

  predicate IsOpen(a: Attempt)
  {
    a.result.None?
  }

  /** The slots made with a new attempt: one per question of the test, in order, none answered. */
  predicate FreshSlots(slots: seq<Slot>, qs: seq<QuestionId>)
  {
    |slots| == |qs| && forall i :: 0 <= i < |slots| ==> slots[i] == Slot(qs[i], None)
  }

  /** The rows handed to `bulk_create` when an attempt is created. */
  method BuildSlots(qs: seq<QuestionId>) returns (slots: seq<Slot>)
    ensures FreshSlots(slots, qs)
  {
    slots := [];
    for i := 0 to |qs|
      invariant |slots| == i
      invariant forall j :: 0 <= j < i ==> slots[j] == Slot(qs[j], None)
    {
      slots := slots + [Slot(qs[i], None)];
    }
  }

  /** A slot counts as correct when its answer exists and is marked correct. */
  predicate IsCorrect(s: Slot, answers: map<AnswerId, bool>)
  {
    s.answer.Some? && s.answer.value in answers && answers[s.answer.value]
  }

  /** The number of slots whose chosen answer is correct. */
  function CountCorrect(slots: seq<Slot>, answers: map<AnswerId, bool>): (r: nat)
    ensures r <= |slots|
    ensures r == |slots| <==> forall i :: 0 <= i < |slots| ==> IsCorrect(slots[i], answers)
    ensures r == 0 <==> forall i :: 0 <= i < |slots| ==> !IsCorrect(slots[i], answers)
  {
    if slots == [] then 0
    else
      var rest := CountCorrect(slots[1..], answers);
      assert forall i :: 1 <= i < |slots| ==> slots[i] == slots[1..][i - 1];
      (if IsCorrect(slots[0], answers) then 1 else 0) + rest
  }

  /** The percentage of correct slots: correct / total * 100, and 0 when there are no slots. */
  function Percent(correct: nat, total: nat): (r: real)
    ensures total == 0 ==> r == 0.0
    ensures total > 0 ==> r * (total as real) == (correct as real) * 100.0
    ensures correct <= total ==> 0.0 <= r <= 100.0
  {
    if total == 0 then 0.0 else (correct as real) / (total as real) * 100.0
  }

  /** An attempt passes when its result reaches the pass mark, the boundary included. */
  predicate Passes(percentSuccess: nat, result: real)
  {
    percentSuccess as real <= result
  }

  /** The pass decision in integers only: pass mark times slot count against correct answers times 100. */
  lemma PassesIffCrossMultiplied(percentSuccess: nat, correct: nat, total: nat)
    ensures Passes(percentSuccess, Percent(correct, total)) <==>
            if total == 0 then percentSuccess == 0 else percentSuccess * total <= correct * 100
  {
    if total > 0 {
      var p := Percent(correct, total);
      var t := total as real;
      assert (percentSuccess * total) as real == (percentSuccess as real) * t;
      assert (correct * 100) as real == (correct as real) * 100.0;
      if percentSuccess as real <= p {
        assert (percentSuccess as real) * t <= p * t;
      } else {
        assert (percentSuccess as real) * t > p * t;
      }
    }
  }

  /** The attempt as it is saved when finished: result and success set, slots untouched. */
  function Finalized(a: Attempt, answers: map<AnswerId, bool>, percentSuccess: nat): Attempt
  {
    var p := Percent(CountCorrect(a.slots, answers), |a.slots|);
    a.(result := Some(p), success := Passes(percentSuccess, p))
  }

  /** One answer out of one, correct, at a pass mark of 50: the result is 100 and the attempt passes. */
  lemma OneCorrectOfOne(q: QuestionId, ans: AnswerId, answers: map<AnswerId, bool>, a: Attempt)
    requires ans in answers && answers[ans]
    requires a.slots == [Slot(q, Some(ans))] && IsOpen(a)
    ensures Finalized(a, answers, 50).result == Some(100.0)
    ensures Finalized(a, answers, 50).success
  {
    assert CountCorrect(a.slots, answers) == 1;
  }

  /** Two questions, one answered correctly, at a pass mark of 50: the result is 50 and the attempt passes. */
  lemma HalfCorrectPassesAtFifty(answers: map<AnswerId, bool>, a: Attempt)
    requires |a.slots| == 2 && IsCorrect(a.slots[0], answers) && !IsCorrect(a.slots[1], answers)
    ensures Finalized(a, answers, 50).result == Some(50.0)
    ensures Finalized(a, answers, 50).success
  {
    assert a.slots[1..][0] == a.slots[1];
    assert CountCorrect(a.slots[1..], answers) == 0;
    assert CountCorrect(a.slots, answers) == 1;
  }

  /** The first slot without an answer, in creation order. */
  function FirstEmpty(slots: seq<Slot>): (r: Option<nat>)
    ensures r.Some? ==> r.value < |slots| && slots[r.value].answer.None?
    ensures r.Some? ==> forall j :: 0 <= j < r.value ==> slots[j].answer.Some?
    ensures r.None? <==> forall j :: 0 <= j < |slots| ==> slots[j].answer.Some?
  {
    if slots == [] then None
    else if slots[0].answer.None? then Some(0)
    else
      assert forall j :: 1 <= j < |slots| ==> slots[j] == slots[1..][j - 1];
      match FirstEmpty(slots[1..])
      case None => None
      case Some(k) => Some(k + 1)
  }

  /** The number of slots still without an answer. */
  function CountEmpty(slots: seq<Slot>): nat
  {
    if slots == [] then 0
    else (if slots[0].answer.None? then 1 else 0) + CountEmpty(slots[1..])
  }

  /** Slot `k` with answer `ans` bound to it, every other slot as it was. */
  function Answered(slots: seq<Slot>, k: nat, ans: AnswerId): seq<Slot>
    requires k < |slots|
  {
    slots[k := slots[k].(answer := Some(ans))]
  }

  /** The attempt is finished exactly when no slot is empty: the empty-slot count is zero iff there is no first empty slot. */
  lemma {:induction false} NoEmptyIffFinished(slots: seq<Slot>)
    ensures CountEmpty(slots) == 0 <==> FirstEmpty(slots).None?
  {
    if slots != [] {
      NoEmptyIffFinished(slots[1..]);
    }
  }

  /** Answering the served slot leaves one empty slot fewer. */
  lemma {:induction false} AnsweringProgresses(slots: seq<Slot>, k: nat, ans: AnswerId)
    requires k < |slots| && slots[k].answer.None?
    ensures CountEmpty(Answered(slots, k, ans)) + 1 == CountEmpty(slots)
  {
    if k > 0 {
      assert Answered(slots, k, ans)[1..] == Answered(slots[1..], k - 1, ans);
      AnsweringProgresses(slots[1..], k - 1, ans);
    } else {
      assert Answered(slots, k, ans)[1..] == slots[1..];
    }
  }

  /** A new attempt has as many empty slots as its test has questions, so that many answers finish it. */
  lemma {:induction false} FreshSlotsAllEmpty(slots: seq<Slot>, qs: seq<QuestionId>)
    requires FreshSlots(slots, qs)
    ensures CountEmpty(slots) == |qs|
  {
    if slots != [] {
      FreshSlotsAllEmpty(slots[1..], qs[1..]);
    }
  }

  /** The filter `result=None`, subject and test of `get_or_create`: an open attempt of this user at this test. */
  function FindOpen(atts: seq<Attempt>, user: UserId, t: TestId): (r: Option<nat>)
    ensures r.Some? ==> r.value < |atts| && IsOpen(atts[r.value])
                        && atts[r.value].subject == user && atts[r.value].test == t
    ensures r.None? ==> forall i :: 0 <= i < |atts| && IsOpen(atts[i]) ==> atts[i].subject != user || atts[i].test != t
  {
    if atts == [] then None
    else if IsOpen(atts[0]) && atts[0].subject == user && atts[0].test == t then Some(0)
    else
      assert forall i :: 1 <= i < |atts| ==> atts[i] == atts[1..][i - 1];
      match FindOpen(atts[1..], user, t)
      case None => None
      case Some(k) => Some(k + 1)
  }

  /** Whether the user has a successful attempt at the test (the re-passing check). */
  predicate HasSuccess(atts: seq<Attempt>, user: UserId, t: TestId)
  {
    exists i :: 0 <= i < |atts| && atts[i].subject == user && atts[i].test == t && atts[i].success
  }

  /**
   * One attempt row's invariants: its test exists; it holds one slot per
   * question of the test, in order; an open attempt has not succeeded; a
   * finished one carries the score of its slots and the pass decision.
   */
  predicate AttemptValid(a: Attempt, tests: map<TestId, Test>, answers: map<AnswerId, bool>)
  {
    && a.test in tests
    && |a.slots| == |tests[a.test].questions|
    && (forall i :: 0 <= i < |a.slots| ==> a.slots[i].question == tests[a.test].questions[i])
    && (IsOpen(a) ==> !a.success)
    && (!IsOpen(a) ==> a == Finalized(a, answers, tests[a.test].percentSuccess))
  }

  /** Every row is valid and no user has two open attempts at the same test. */
  predicate AttemptsValid(atts: seq<Attempt>, tests: map<TestId, Test>, answers: map<AnswerId, bool>)
  {
    && (forall i :: 0 <= i < |atts| ==> AttemptValid(atts[i], tests, answers))
    && (forall i, j :: 0 <= i < j < |atts| && IsOpen(atts[i]) && IsOpen(atts[j]) ==>
          atts[i].subject != atts[j].subject || atts[i].test != atts[j].test)
  }

  /** Finished rows are never touched again and rows are never removed. */
  predicate Extends(before: seq<Attempt>, after: seq<Attempt>)
  {
    |before| <= |after| && forall i :: 0 <= i < |before| && !IsOpen(before[i]) ==> after[i] == before[i]
  }

  /** Creating an attempt when none is open keeps the table valid and keeps every earlier success. */
  lemma OpenPreservesValid(atts: seq<Attempt>, tests: map<TestId, Test>, answers: map<AnswerId, bool>,
                           user: UserId, t: TestId, slots: seq<Slot>)
    requires AttemptsValid(atts, tests, answers)
    requires t in tests && FreshSlots(slots, tests[t].questions)
    requires FindOpen(atts, user, t).None?
    ensures var after := atts + [Attempt(user, t, None, false, slots)];
            && AttemptsValid(after, tests, answers)
            && Extends(atts, after)
            && forall u, s :: HasSuccess(after, u, s) <==> HasSuccess(atts, u, s)
  {
    var after := atts + [Attempt(user, t, None, false, slots)];
    forall u, s ensures HasSuccess(after, u, s) <==> HasSuccess(atts, u, s) {
      if HasSuccess(after, u, s) {
        var i :| 0 <= i < |after| && after[i].subject == u && after[i].test == s && after[i].success;
        assert i < |atts|;
      }
      if HasSuccess(atts, u, s) {
        var i :| 0 <= i < |atts| && atts[i].subject == u && atts[i].test == s && atts[i].success;
        assert after[i] == atts[i];
      }
    }
  }

  /** Binding an answer to a slot of an open attempt keeps the table valid and changes no success. */
  lemma AnswerPreservesValid(atts: seq<Attempt>, tests: map<TestId, Test>, answers: map<AnswerId, bool>,
                             i: nat, k: nat, ans: AnswerId)
    requires AttemptsValid(atts, tests, answers)
    requires i < |atts| && IsOpen(atts[i]) && k < |atts[i].slots|
    ensures var after := atts[i := atts[i].(slots := Answered(atts[i].slots, k, ans))];
            && AttemptsValid(after, tests, answers)
            && Extends(atts, after)
            && forall u, s :: HasSuccess(after, u, s) <==> HasSuccess(atts, u, s)
  {
    var after := atts[i := atts[i].(slots := Answered(atts[i].slots, k, ans))];
    assert AttemptValid(after[i], tests, answers);
    forall u, s ensures HasSuccess(after, u, s) <==> HasSuccess(atts, u, s) {
      if HasSuccess(after, u, s) {
        var j :| 0 <= j < |after| && after[j].subject == u && after[j].test == s && after[j].success;
        assert atts[j].success;
      }
      if HasSuccess(atts, u, s) {
        var j :| 0 <= j < |atts| && atts[j].subject == u && atts[j].test == s && atts[j].success;
        assert after[j].success;
      }
    }
  }

  /**
   * Finishing an open attempt keeps the table valid; the user's successes
   * are the earlier ones plus this attempt's, if it passed.
   */
  lemma FinalizePreservesValid(atts: seq<Attempt>, tests: map<TestId, Test>, answers: map<AnswerId, bool>, i: nat)
    requires AttemptsValid(atts, tests, answers)
    requires i < |atts| && IsOpen(atts[i])
    ensures var after := atts[i := Finalized(atts[i], answers, tests[atts[i].test].percentSuccess)];
            && AttemptsValid(after, tests, answers)
            && Extends(atts, after)
            && forall u, s :: HasSuccess(after, u, s) <==>
                 HasSuccess(atts, u, s) || (u == atts[i].subject && s == atts[i].test && after[i].success)
  {
    var a := atts[i];
    var f := Finalized(a, answers, tests[a.test].percentSuccess);
    var after := atts[i := f];
    assert f == Finalized(f, answers, tests[f.test].percentSuccess);
    assert AttemptValid(f, tests, answers);
    forall u, s ensures HasSuccess(after, u, s) <==>
                        HasSuccess(atts, u, s) || (u == a.subject && s == a.test && f.success) {
      if HasSuccess(after, u, s) {
        var j :| 0 <= j < |after| && after[j].subject == u && after[j].test == s && after[j].success;
        if j != i { assert atts[j].success; }
      }
      if HasSuccess(atts, u, s) {
        var j :| 0 <= j < |atts| && atts[j].subject == u && atts[j].test == s && atts[j].success;
        assert j != i;
        assert after[j].success;
      }
      if u == a.subject && s == a.test && f.success {
        assert after[i].success;
      }
    }
  }

  /**
   * The ghost log of rewards: every rewarded (user, test) pair has a
   * successful attempt, and no pair is rewarded twice.
   */
  predicate RewardsValid(rewarded: seq<(UserId, TestId)>, atts: seq<Attempt>)
  {
    && (forall i :: 0 <= i < |rewarded| ==> HasSuccess(atts, rewarded[i].0, rewarded[i].1))
    && (forall i, j :: 0 <= i < j < |rewarded| ==> rewarded[i] != rewarded[j])
  }

  /**
   * Rewarding a pair that had no success before and has one now keeps the
   * log valid: the pair cannot already be in it, so no test pays twice.
   */
  lemma RewardOnce(rewarded: seq<(UserId, TestId)>, before: seq<Attempt>, after: seq<Attempt>, user: UserId, t: TestId)
    requires RewardsValid(rewarded, before)
    requires forall u, s :: HasSuccess(before, u, s) ==> HasSuccess(after, u, s)
    requires !HasSuccess(before, user, t) && HasSuccess(after, user, t)
    ensures RewardsValid(rewarded + [(user, t)], after)
    ensures (user, t) !in rewarded
  {
    var r := rewarded + [(user, t)];
    forall i | 0 <= i < |rewarded| ensures rewarded[i] != (user, t) {
      assert HasSuccess(before, rewarded[i].0, rewarded[i].1);
    }
    forall i | 0 <= i < |r| ensures HasSuccess(after, r[i].0, r[i].1) {
      if i < |rewarded| {
        assert HasSuccess(before, rewarded[i].0, rewarded[i].1);
      }
    }
  }

  /** The reward update on the wallet table: a no-op when the user has no wallet. */
  function CreditOwner(ws: map<UserId, Wallet>, user: UserId, prize: nat): (r: map<UserId, Wallet>)
    ensures r.Keys == ws.Keys
    ensures forall u :: u in ws && u != user ==> r[u] == ws[u]
    ensures user in ws ==> r[user].currentSum == ws[user].currentSum + prize
                           && r[user].totalWon == ws[user].totalWon + prize
    ensures forall u :: u in ws && WalletValid(ws[u]) ==> WalletValid(r[u])
  {
    if user in ws then ws[user := Credit(ws[user], prize)] else ws
  }
}
