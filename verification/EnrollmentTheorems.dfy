/** The main results about approvals and enrollment, over every interleaving. */
module EnrollmentTheorems {
  import opened Common
  import opened Enrollment

  lemma Then(before: seq<Action>, a: Action)
    ensures Run(START, before + [a]) == Step(Run(START, before), a)
  {
    assert (before + [a])[..|before|] == before;
  }

  /** Redeem exactly once: in every interleaving a session has one key iff it is redeemed,
      and every key was minted by a check made before the session's expiry. */
  lemma RedeemExactlyOnce(actions: seq<Action>, session: nat)
    requires session in Run(START, actions).db.sessions
    ensures var s := Run(START, actions);
            && |KeysOf(s, session)| == (if s.db.sessions[session].status == Redeemed then 1 else 0)
            && (forall k :: k in KeysOf(s, session) ==> s.db.keys[k].checkedAt < s.db.sessions[session].expiresAt)
  {
    RunInv(actions);
  }

  lemma ReviewMintsNothing(s: State, a: Action)
    ensures ReviewStep(s, a).db.keys == s.db.keys
  {
  }

  /** A key appears only in the step that takes its session from approved to redeemed. */
  lemma MintedOnlyFromApproved(actions: seq<Action>, a: Action, k: nat)
    requires k in Step(Run(START, actions), a).db.keys && k !in Run(START, actions).db.keys
    ensures var s := Run(START, actions);
            var after := Step(s, a);
            var e := after.db.keys[k].session;
            && e in s.db.sessions && s.db.sessions[e].status == SApproved
            && e in after.db.sessions && after.db.sessions[e].status == Redeemed
  {
    RunInv(actions);
    MintStep(Run(START, actions), a, k);
  }

  lemma MintStep(s: State, a: Action, k: nat)
    requires TxsOk(s) && k in Step(s, a).db.keys && k !in s.db.keys
    ensures var after := Step(s, a);
            var e := after.db.keys[k].session;
            && e in s.db.sessions && s.db.sessions[e].status == SApproved
            && e in after.db.sessions && after.db.sessions[e].status == Redeemed
  {
    ReviewMintsNothing(s, a);
    if a.ContinueRedeem? && a.tx in s.txs {
      assert TxOk(s, s.txs[a.tx]);
      NewKeyIsCommitted(s, a.tx, a.keyId, k);
    }
  }

  lemma NewKeyIsCommitted(s: State, tx: nat, keyId: nat, k: nat)
    requires tx in s.txs && TxOk(s, s.txs[tx]) && k in ContinueStep(s, tx, keyId).db.keys && k !in s.db.keys
    ensures var t, after := s.txs[tx], ContinueStep(s, tx, keyId);
            && t.phase.Marked? && after.db.keys[k] == t.phase.key && t.phase.key.session == t.session
            && t.session in after.db.sessions && after.db.sessions[t.session].status == Redeemed
  {
  }

  /** Until it commits, a redeeming transaction leaves the tables alone; it commits only when it has both
      minted and marked, so a raise takes back everything, its own mark_expired included. */
  lemma FailedRedeemChangesNothing(actions: seq<Action>, a: Action)
    requires a.BeginRedeem? || a.ContinueRedeem? || a.AbortRedeem?
    ensures var s := Run(START, actions);
            Step(s, a).db != s.db ==>
              && a.ContinueRedeem? && a.tx in s.txs && s.txs[a.tx].phase.Marked? && s.txs[a.tx].wrote == Some(Redeemed)
              && Step(s, a).db.keys == s.db.keys[a.keyId := s.txs[a.tx].phase.key]
  {
    var s := Run(START, actions);
    if a.ContinueRedeem? && a.tx in s.txs && s.txs[a.tx].session in s.db.sessions {
      RunInv(actions);
      assert TxOk(s, s.txs[a.tx]);
      OnlyCommitWrites(s, a.tx, a.keyId);
    }
  }

  lemma OnlyCommitWrites(s: State, tx: nat, keyId: nat)
    requires tx in s.txs && s.txs[tx].session in s.db.sessions
    ensures var after := ContinueStep(s, tx, keyId);
            after.db != s.db ==> s.txs[tx].phase.Marked? && after.db.keys == s.db.keys[keyId := s.txs[tx].phase.key]
  {
  }

  predicate Unlocked(status: SessionStatus) {
    status == SApproved || status == Redeemed
  }

  /** Every request leaves pending at most once and its executor starts at most once, never
      after a rejection; an enrollment gets as far as approved only through an approved request. */
  lemma ApprovalLifecycle(actions: seq<Action>)
    ensures var s := Run(START, actions);
            && (forall q :: q in s.db.requests ==>
                  var r := s.db.requests[q];
                  r.left <= 1 && r.runs <= 1 && (r.left == 0 <==> r.status == Pending)
                    && (r.runs == 1 ==> r.status == Approved || r.status == ApprovedFailed))
            && (forall e :: e in s.db.sessions && Unlocked(s.db.sessions[e].status) ==>
                  s.db.sessions[e].request in s.db.requests
                  && var r := s.db.requests[s.db.sessions[e].request];
                     (r.status == Approved || r.status == ApprovedFailed) && r.runs == 1 && r.reviewer.Some?)
  {
    RunInv(actions);
    var s := Run(START, actions);
    assert forall e :: e in s.db.sessions ==> SessionOk(s, s.db.sessions[e]);
  }

  // ---------- an executor that raises ----------

  /** The reviewing process gets to its mark_failed before it dies. */
  ghost predicate LivesToMark(later: seq<Action>, q: nat) {
    exists i :: 0 <= i < |later| && later[i] == MarkFailed(q) && ReviewerDies(q) !in later[..i]
  }

  lemma LivesToMarkNext(later: seq<Action>, a: Action, q: nat)
    ensures LivesToMark(later + [a], q)
       <==> LivesToMark(later, q) || (a == MarkFailed(q) && ReviewerDies(q) !in later)
  {
    var all := later + [a];
    forall i | 0 <= i < |later| ensures all[i] == later[i] && all[..i] == later[..i] {
    }
    assert all[..|later|] == later;
  }

  /** Where a request stands after its executor raised and some more steps. */
  ghost predicate AfterRaise(s: State, q: nat, later: seq<Action>) {
    && q in s.db.requests && s.db.requests[q].runs == 1
    && var r := s.db.requests[q];
       if LivesToMark(later, q) then r.status == ApprovedFailed && r.phase == Finished
       else r.status == Approved && r.phase == if ReviewerDies(q) in later then Finished else Raised
  }

  lemma AfterRaiseStep(s: State, q: nat, later: seq<Action>, a: Action)
    requires AfterRaise(s, q, later)
    ensures AfterRaise(Step(s, a), q, later + [a])
  {
    LivesToMarkNext(later, a, q);
    assert ReviewerDies(q) in later + [a] <==> ReviewerDies(q) in later || a == ReviewerDies(q);
    if a != ReviewerDies(q) && a != MarkFailed(q) {
      SameRequestUnlessReviewed(s, a, q);
    }
  }

  lemma SameRequestUnlessReviewed(s: State, a: Action, q: nat)
    requires q in s.db.requests && a != ReviewerDies(q) && a != MarkFailed(q)
    requires s.db.requests[q].status != Pending
             && (s.db.requests[q].phase == Finished || s.db.requests[q].phase == Raised)
    ensures q in Step(s, a).db.requests && Step(s, a).db.requests[q] == s.db.requests[q]
  {
  }

  /** A request whose executor raised ends approved-failed exactly when its reviewing process lives to mark it;
      otherwise it stays approved. Either way the executor never runs again. */
  lemma {:induction false} RaisedExecutorEndsFailed(before: seq<Action>, q: nat, later: seq<Action>)
    requires InPhase(Run(START, before), q, Executing)
    ensures var s := Run(START, before + [ExecutorRaises(q)] + later);
            && q in s.db.requests && s.db.requests[q].runs == 1
            && s.db.requests[q].status == if LivesToMark(later, q) then ApprovedFailed else Approved
    ensures AfterRaise(Run(START, before + [ExecutorRaises(q)] + later), q, later)
    decreases |later|
  {
    if later == [] {
      RunInv(before);
      assert RequestOk(Run(START, before).db.requests[q]);
      Then(before, ExecutorRaises(q));
      assert before + [ExecutorRaises(q)] + [] == before + [ExecutorRaises(q)];
    } else {
      var front, a := later[..|later| - 1], later[|later| - 1];
      RaisedExecutorEndsFailed(before, q, front);
      Then(before + [ExecutorRaises(q)] + front, a);
      assert before + [ExecutorRaises(q)] + later == before + [ExecutorRaises(q)] + front + [a];
      AfterRaiseStep(Run(START, before + [ExecutorRaises(q)] + front), q, front, a);
      assert later == front + [a];
    }
  }

  // ---------- which approvals unlock their enrollment ----------

  ghost predicate ReviewedWithoutName(s: State, q: nat) {
    q in s.db.requests && s.db.requests[q].status != Pending && s.db.requests[q].reviewer.None?
  }

  lemma ReviewerStays(s: State, a: Action, q: nat)
    requires ReviewedWithoutName(s, q)
    ensures ReviewedWithoutName(Step(s, a), q)
  {
  }

  /** An approval without a reviewing entity (`reviewed_by` is None, as in MCP admin calls) never
      unlocks its enrollment: whatever happens afterwards, no key is minted for it. */
  lemma {:induction false} NamelessApprovalMintsNothing(before: seq<Action>, q: nat, later: seq<Action>, session: nat)
    requires q in Run(START, before).db.requests && Run(START, before).db.requests[q].status == Pending
    ensures var s := Run(START, before + [Approve(q, None)] + later);
            && ReviewedWithoutName(s, q)
            && (session in s.db.sessions && s.db.sessions[session].request == q ==>
                  s.db.sessions[session].status != SApproved && KeysOf(s, session) == {})
    decreases |later|
  {
    var all := before + [Approve(q, None)] + later;
    RunInv(all);
    var s := Run(START, all);
    if later == [] {
      assert all[..|all| - 1] == before;
    } else {
      assert all[..|all| - 1] == before + [Approve(q, None)] + later[..|later| - 1];
      NamelessApprovalMintsNothing(before, q, later[..|later| - 1], session);
      ReviewerStays(Run(START, all[..|all| - 1]), all[|all| - 1], q);
    }
    if session in s.db.sessions && s.db.sessions[session].request == q {
      assert SessionOk(s, s.db.sessions[session]);
    }
  }

  /** The raise of a late redeem takes its mark_expired back: the session is still approved
      afterwards, past its expiry, until an expiry sweep of its own transaction finds it. */
  lemma LateRedeemLeavesSessionApproved(s: State, tx: nat, session: nat, k1: nat, k2: nat)
    requires tx !in s.txs && session in s.db.sessions && !Locked(s, session)
    requires s.db.sessions[session].status == SApproved && s.clock >= s.db.sessions[session].expiresAt
    ensures var one := Step(s, BeginRedeem(tx, session, true));
            var two := Step(one, ContinueRedeem(tx, k1));
            tx in two.txs && two.txs[tx].wrote == Some(Expired) && Step(two, ContinueRedeem(tx, k2)) == s
    ensures Step(s, Expire(session)).db.sessions[session].status == Expired
  {
    var one := Step(s, BeginRedeem(tx, session, true));
    var two := Step(one, ContinueRedeem(tx, k1));
    LateRedeemMarks(s, tx, session, k1);
    assert two.txs == s.txs[tx := Redeem(session, Failing, Some(Expired))];
    assert Step(two, ContinueRedeem(tx, k2)) == Drop(two, tx);
    assert Drop(two, tx).txs == s.txs;
  }

  lemma LateRedeemMarks(s: State, tx: nat, session: nat, k1: nat)
    requires tx !in s.txs && session in s.db.sessions && !Locked(s, session)
    requires s.db.sessions[session].status == SApproved && s.clock >= s.db.sessions[session].expiresAt
    ensures Step(Step(s, BeginRedeem(tx, session, true)), ContinueRedeem(tx, k1))
         == s.(txs := s.txs[tx := Redeem(session, Failing, Some(Expired))])
  {
    var one := Step(s, BeginRedeem(tx, session, true));
    assert one == s.(txs := s.txs[tx := Redeem(session, Reading(true), None)]);
  }

  /** Some continuation mints a key for the session. */
  ghost predicate CanMint(before: seq<Action>, session: nat) {
    exists later :: KeysOf(Run(START, before + later), session) != {}
  }

  /** Exactly which approvals unlock the enrollment: those with a reviewing entity, of a session that is still
      pending and not past its expiry. */
  lemma ApprovalUnlocksIff(before: seq<Action>, q: nat, reviewer: Option<string>, session: nat)
    requires var db := Run(START, before).db;
             && q in db.requests && db.requests[q].status == Pending
             && session in db.sessions && db.sessions[session].request == q
    ensures var s := Run(START, before);
            CanMint(before + [Approve(q, reviewer)], session)
            <==> reviewer.Some? && s.db.sessions[session].status == PendingApproval
                 && s.clock < s.db.sessions[session].expiresAt
  {
    var s, approved := Run(START, before), before + [Approve(q, reviewer)];
    RunInv(before);
    Then(before, Approve(q, reviewer));
    assert SessionOk(s, s.db.sessions[session]);
    if reviewer.None? {
      forall later ensures KeysOf(Run(START, approved + later), session) == {} {
        SessionStays(approved, session, later);
        NamelessApprovalMintsNothing(before, q, later, session);
      }
    } else if s.db.sessions[session].status == PendingApproval && s.clock < s.db.sessions[session].expiresAt {
      var later := RedeemingRun(approved, q, session);
    } else {
      NeverPending(s, session);
      forall later ensures KeysOf(Run(START, approved + later), session) == {} {
        StaysHopeless(approved, session, later);
      }
    }
  }

  // ---------- a run that redeems ----------

  lemma AfterMore(before: seq<Action>, later: seq<Action>, a: Action)
    ensures Run(START, before + (later + [a])) == Step(Run(START, before + later), a)
  {
    assert before + (later + [a]) == before + later + [a];
    Then(before + later, a);
  }

  lemma AbortOpenRedeems(before: seq<Action>, so_far: seq<Action>) returns (later: seq<Action>)
    ensures Run(START, before + later) == Run(START, before + so_far).(txs := map[])
    decreases |Run(START, before + so_far).txs|
  {
    var s := Run(START, before + so_far);
    if tx :| tx in s.txs {
      AfterMore(before, so_far, AbortRedeem(tx));
      assert (s.txs - {tx}).Keys == s.txs.Keys - {tx};
      later := AbortOpenRedeems(before, so_far + [AbortRedeem(tx)]);
    } else {
      later := so_far;
    }
  }

  lemma FreshId(used: set<nat>) returns (id: nat)
    ensures forall x :: x in used ==> x < id
  {
    if x :| x in used {
      assert used == used - {x} + {x};
      id := FreshId(used - {x});
      id := if id <= x then x + 1 else id;
    } else {
      id := 0;
    }
  }

  ghost predicate ReadyToUnlock(s: State, q: nat, session: nat) {
    && s.txs == map[] && InPhase(s, q, Dispatching) && s.db.requests[q].registers && s.db.requests[q].reviewer.Some?
    && session in s.db.sessions && s.db.sessions[session].request == q
    && s.db.sessions[session].status == PendingApproval && s.clock < s.db.sessions[session].expiresAt
  }

  ghost predicate ReadyToRedeem(s: State, session: nat) {
    && s.txs == map[] && session in s.db.sessions
    && s.db.sessions[session].status == SApproved && s.clock < s.db.sessions[session].expiresAt
  }

  lemma UnlockSteps(s: State, q: nat, session: nat)
    requires ReadyToUnlock(s, q, session)
    ensures ReadyToRedeem(Step(Step(s, Dispatch(q, true)), MarkApproved(q)), session)
  {
  }

  lemma RedeemSteps(s: State, session: nat, k: nat)
    requires ReadyToRedeem(s, session) && k !in s.db.keys
    ensures var reading := Step(s, BeginRedeem(0, session, true));
            var minted := Step(reading, ContinueRedeem(0, k));
            var marked := Step(minted, ContinueRedeem(0, k));
            k in KeysOf(Step(marked, ContinueRedeem(0, k)), session)
  {
    var reading := Step(s, BeginRedeem(0, session, true));
    var minted := Step(reading, ContinueRedeem(0, k));
    assert minted == s.(txs := map[0 := Redeem(session, Minted(Key(session, s.clock)), None)]);
    var marked := Step(minted, ContinueRedeem(0, k));
    assert marked == s.(txs := map[0 := Redeem(session, Marked(Key(session, s.clock)), Some(Redeemed))]);
  }

  lemma RedeemingRun(before: seq<Action>, q: nat, session: nat) returns (later: seq<Action>)
    requires ReadyToUnlock(Run(START, before).(txs := map[]), q, session)
    ensures KeysOf(Run(START, before + later), session) != {}
  {
    var quiet := AbortOpenRedeems(before, []);
    assert before + [] == before;
    var dispatched := quiet + [Dispatch(q, true)];
    var unlocked := dispatched + [MarkApproved(q)];
    AfterMore(before, quiet, Dispatch(q, true));
    AfterMore(before, dispatched, MarkApproved(q));
    UnlockSteps(Run(START, before + quiet), q, session);
    var s := Run(START, before + unlocked);
    var k := FreshId(s.db.keys.Keys);
    RedeemSteps(s, session, k);
    var reading := unlocked + [BeginRedeem(0, session, true)];
    var minted := reading + [ContinueRedeem(0, k)];
    var marked := minted + [ContinueRedeem(0, k)];
    later := marked + [ContinueRedeem(0, k)];
    AfterMore(before, unlocked, BeginRedeem(0, session, true));
    AfterMore(before, reading, ContinueRedeem(0, k));
    AfterMore(before, minted, ContinueRedeem(0, k));
    AfterMore(before, marked, ContinueRedeem(0, k));
  }

  // ---------- sessions that are too late ----------

  lemma SessionStep(s: State, a: Action, session: nat)
    requires session in s.db.sessions
    ensures session in Step(s, a).db.sessions
    ensures Step(s, a).db.sessions[session].request == s.db.sessions[session].request
  {
  }

  lemma {:induction false} SessionStays(before: seq<Action>, session: nat, later: seq<Action>)
    requires session in Run(START, before).db.sessions
    ensures var s := Run(START, before + later);
            session in s.db.sessions
              && s.db.sessions[session].request == Run(START, before).db.sessions[session].request
    decreases |later|
  {
    if later == [] {
      assert before + later == before;
    } else {
      var front, a := later[..|later| - 1], later[|later| - 1];
      SessionStays(before, session, front);
      assert later == front + [a];
      AfterMore(before, front, a);
      SessionStep(Run(START, before + front), a, session);
    }
  }

  /** No key, none on its way, and none to come: the session has expired or is past its expiry. */
  ghost predicate Hopeless(s: State, session: nat) {
    && session in s.db.sessions && KeysOf(s, session) == {}
    && (s.db.sessions[session].status == Expired || s.clock >= s.db.sessions[session].expiresAt)
    && forall tx :: tx in s.txs && s.txs[tx].session == session ==> !s.txs[tx].phase.Minted? && !s.txs[tx].phase.Marked?
  }

  lemma NeverPending(s: State, session: nat)
    requires Inv(s) && session in s.db.sessions && s.db.requests[s.db.sessions[session].request].status == Pending
    requires s.db.sessions[session].status != PendingApproval || s.clock >= s.db.sessions[session].expiresAt
    ensures Hopeless(s, session)
  {
  }

  lemma HopelessStep(s: State, a: Action, session: nat)
    requires TxsOk(s) && Hopeless(s, session)
    ensures Hopeless(Step(s, a), session)
  {
    if a.ContinueRedeem? && a.tx in s.txs && s.txs[a.tx].session in s.db.sessions {
      HopelessContinue(s, a.tx, a.keyId, session);
    } else {
      assert Step(s, a).db.keys == s.db.keys;
    }
  }

  lemma HopelessContinue(s: State, tx: nat, keyId: nat, session: nat)
    requires TxsOk(s) && Hopeless(s, session) && tx in s.txs && s.txs[tx].session in s.db.sessions
    ensures Hopeless(ContinueStep(s, tx, keyId), session)
  {
    var t, after := s.txs[tx], ContinueStep(s, tx, keyId);
    if after.db.keys != s.db.keys {
      assert TxOk(s, t);
      assert t.phase.Marked? && after.db.keys == s.db.keys[keyId := t.phase.key];
    }
  }

  lemma {:induction false} StaysHopeless(before: seq<Action>, session: nat, later: seq<Action>)
    requires Hopeless(Run(START, before), session)
    ensures Hopeless(Run(START, before + later), session)
    decreases |later|
  {
    if later == [] {
      assert before + later == before;
    } else {
      var front, a := later[..|later| - 1], later[|later| - 1];
      StaysHopeless(before, session, front);
      assert later == front + [a];
      AfterMore(before, front, a);
      RunInv(before + front);
      HopelessStep(Run(START, before + front), a, session);
    }
  }

  // ---------- the token ----------

  /** No key, and no redeem that got past its token check. */
  ghost predicate Tokenless(s: State, session: nat) {
    && KeysOf(s, session) == {}
    && forall tx :: tx in s.txs && s.txs[tx].session == session ==>
         s.txs[tx].phase == Reading(false) || s.txs[tx].phase.Failing?
  }

  lemma TokenlessStep(s: State, a: Action, session: nat)
    requires TxsOk(s) && Tokenless(s, session)
    requires !(a.BeginRedeem? && a.session == session && a.tokenOk)
    ensures Tokenless(Step(s, a), session)
  {
    if a.ContinueRedeem? && a.tx in s.txs && s.txs[a.tx].session in s.db.sessions {
      TokenlessContinue(s, a.tx, a.keyId, session);
    } else {
      assert Step(s, a).db.keys == s.db.keys;
    }
  }

  lemma TokenlessContinue(s: State, tx: nat, keyId: nat, session: nat)
    requires TxsOk(s) && Tokenless(s, session) && tx in s.txs && s.txs[tx].session in s.db.sessions
    ensures Tokenless(ContinueStep(s, tx, keyId), session)
  {
    var t, after := s.txs[tx], ContinueStep(s, tx, keyId);
    if after.db.keys != s.db.keys {
      assert TxOk(s, t);
      assert t.phase.Marked? && after.db.keys == s.db.keys[keyId := t.phase.key];
    }
  }

  /** Without the right token no key: a session for which no redeem ever passes the token check is never given one,
      however often it is tried. */
  lemma {:induction false} WrongTokenMintsNothing(actions: seq<Action>, session: nat)
    requires forall tx :: BeginRedeem(tx, session, true) !in actions
    ensures KeysOf(Run(START, actions), session) == {} && Tokenless(Run(START, actions), session)
  {
    if actions != [] {
      var before, a := actions[..|actions| - 1], actions[|actions| - 1];
      assert actions == before + [a];
      WrongTokenMintsNothing(before, session);
      RunInv(before);
      assert a in actions;
      TokenlessStep(Run(START, before), a, session);
    }
  }

  // ---------- the other ends of a review ----------

  ghost predicate Closed(s: State, q: nat, status: ReviewStatus, runs: nat) {
    && q in s.db.requests && s.db.requests[q].status == status && s.db.requests[q].runs == runs
    && (status == Rejected || status == ApprovedFailed)
  }

  lemma ClosedStays(s: State, a: Action, q: nat, status: ReviewStatus, runs: nat)
    requires ReviewsOk(s) && Closed(s, q, status, runs)
    ensures Closed(Step(s, a), q, status, runs)
  {
    if Step(s, a) == ReviewStep(s, a) {
      ClosedUnderReview(s, a, q, status, runs);
    } else {
      OnlyReviewsChangeRequests(s, a);
    }
  }

  lemma ClosedUnderReview(s: State, a: Action, q: nat, status: ReviewStatus, runs: nat)
    requires ReviewsOk(s) && Closed(s, q, status, runs)
    ensures Closed(ReviewStep(s, a), q, status, runs)
  {
    assert RequestOk(s.db.requests[q]);
  }

  lemma OnlyReviewsChangeRequests(s: State, a: Action)
    requires Step(s, a) != ReviewStep(s, a)
    ensures Step(s, a).db.requests == s.db.requests
  {
  }

  lemma {:induction false} ClosedForever(
      before: seq<Action>, later: seq<Action>, q: nat, status: ReviewStatus, runs: nat)
    requires Closed(Run(START, before), q, status, runs)
    ensures Closed(Run(START, before + later), q, status, runs)
    decreases |later|
  {
    if later == [] {
      assert before + later == before;
    } else {
      var front, a := later[..|later| - 1], later[|later| - 1];
      ClosedForever(before, front, q, status, runs);
      assert later == front + [a];
      AfterMore(before, front, a);
      RunInv(before + front);
      ClosedStays(Run(START, before + front), a, q, status, runs);
    }
  }

  /** A new registration: pending, for exactly its time to live. */
  lemma RegisterStores(before: seq<Action>, q: nat, session: nat, ttl: nat)
    requires q !in Run(START, before).db.requests && session !in Run(START, before).db.sessions
    ensures var s, after := Run(START, before), Run(START, before + [Register(q, session, ttl)]);
            && q in after.db.requests && after.db.requests[q].status == Pending && after.db.requests[q].registers
            && session in after.db.sessions
            && after.db.sessions[session] == Session(q, PendingApproval, s.clock + ttl)
            && after.db.keys == s.db.keys && after.clock == s.clock
  {
    Then(before, Register(q, session, ttl));
  }

  /** A rejected request stays rejected, its executor never starts, and no key is ever minted for its session. */
  lemma RejectionIsFinal(before: seq<Action>, q: nat, reviewer: Option<string>, later: seq<Action>, session: nat)
    requires q in Run(START, before).db.requests && Run(START, before).db.requests[q].status == Pending
    ensures var s := Run(START, before + [Reject(q, reviewer)] + later);
            && q in s.db.requests && s.db.requests[q].status == Rejected && s.db.requests[q].runs == 0
            && (session in s.db.sessions && s.db.sessions[session].request == q ==>
                  s.db.sessions[session].status != SApproved && KeysOf(s, session) == {})
  {
    RunInv(before);
    Then(before, Reject(q, reviewer));
    ClosedForever(before + [Reject(q, reviewer)], later, q, Rejected, 0);
    RunInv(before + [Reject(q, reviewer)] + later);
    var s := Run(START, before + [Reject(q, reviewer)] + later);
    if session in s.db.sessions && s.db.sessions[session].request == q {
      assert SessionOk(s, s.db.sessions[session]);
    }
  }

  /** The session of a rejected registration is marked rejected by the next statement. */
  lemma RejectionReachesSession(before: seq<Action>, q: nat, reviewer: Option<string>, session: nat)
    requires var s := Run(START, before);
             && q in s.db.requests && s.db.requests[q].status == Pending && s.txs == map[]
             && session in s.db.sessions && s.db.sessions[session].request == q
             && s.db.sessions[session].status == PendingApproval
    ensures var after := Run(START, before + [Reject(q, reviewer)] + [MarkRejected(q)]);
            session in after.db.sessions && after.db.sessions[session].status == SRejected
  {
    RunInv(before);
    assert SessionOk(Run(START, before), Run(START, before).db.sessions[session]);
    Then(before, Reject(q, reviewer));
    Then(before + [Reject(q, reviewer)], MarkRejected(q));
    RejectionSteps(Run(START, before), q, reviewer, session);
  }

  lemma RejectionSteps(s: State, q: nat, reviewer: Option<string>, session: nat)
    requires q in s.db.requests && s.db.requests[q].status == Pending && s.db.requests[q].registers && s.txs == map[]
    requires session in s.db.sessions && s.db.sessions[session].request == q
    requires s.db.sessions[session].status == PendingApproval
    ensures var after := Step(Step(s, Reject(q, reviewer)), MarkRejected(q));
            session in after.db.sessions && after.db.sessions[session].status == SRejected
  {
    var rejected := Step(s, Reject(q, reviewer));
    assert rejected.db.sessions == s.db.sessions && rejected.txs == s.txs && InPhase(rejected, q, Rejecting);
  }

  /** An approved request of a kind that has no executor is approved-failed for good. */
  lemma MissingExecutorEndsFailed(before: seq<Action>, q: nat, later: seq<Action>)
    requires InPhase(Run(START, before), q, Dispatching)
    ensures var s := Run(START, before + [Dispatch(q, false)] + later);
            q in s.db.requests && s.db.requests[q].status == ApprovedFailed && s.db.requests[q].runs == 0
  {
    RunInv(before);
    assert RequestOk(Run(START, before).db.requests[q]);
    Then(before, Dispatch(q, false));
    ClosedForever(before + [Dispatch(q, false)], later, q, ApprovedFailed, 0);
  }

  /** A request whose executor returned stays approved, and its executor never runs again. */
  lemma {:induction false} ReturnedExecutorEndsApproved(before: seq<Action>, q: nat, later: seq<Action>)
    requires InPhase(Run(START, before), q, Executing)
    ensures var s := Run(START, before + [ExecutorReturns(q)] + later);
            && q in s.db.requests && s.db.requests[q].status == Approved && s.db.requests[q].runs == 1
            && s.db.requests[q].phase == Finished
    decreases |later|
  {
    var returned := before + [ExecutorReturns(q)];
    if later == [] {
      RunInv(before);
      assert RequestOk(Run(START, before).db.requests[q]);
      Then(before, ExecutorReturns(q));
      assert returned + [] == returned;
    } else {
      var front, a := later[..|later| - 1], later[|later| - 1];
      ReturnedExecutorEndsApproved(before, q, front);
      assert returned + later == returned + front + [a];
      Then(returned + front, a);
      if a != ReviewerDies(q) && a != MarkFailed(q) {
        SameRequestUnlessReviewed(Run(START, returned + front), a, q);
      }
    }
  }

  /** A submitted request is pending and registers nobody; time passes; a reviewer that dies leaves its request as it
      was, with nobody to go on. */
  lemma SmallSteps(s: State, q: nat, seconds: nat)
    ensures q !in s.db.requests ==>
              Step(s, Submit(q)).db
              == s.db.(requests := s.db.requests[q := Request(Pending, false, None, Nobody, 0, 0)])
    ensures Step(s, Tick(seconds)) == s.(clock := s.clock + seconds)
    ensures q in s.db.requests && s.db.requests[q].phase != Nobody ==>
              Step(s, ReviewerDies(q)).db == s.db.(requests := s.db.requests[q := s.db.requests[q].(phase := Finished)])
  {
  }
}
