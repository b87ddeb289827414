/** Approval requests, their executors, and enrollment sessions up to the minted key: reviews, expiry and
    redeeming transactions interleave freely. One step is one SQL statement, or one transaction boundary. */
module Enrollment {
  import opened Common

  // ---------- tables ----------

  datatype ReviewStatus = Pending | Approved | Rejected | ApprovedFailed

  /** Where the process that reviewed the request is in its code. */
  datatype Reviewing = Nobody | Dispatching | Executing | Raised | Rejecting | Finished

  /** `runs` and `left` are history: how often the executor was started, how often the row left pending. */
  datatype Request = Request(
      status: ReviewStatus, registers: bool, reviewer: Option<string>, phase: Reviewing, runs: nat, left: nat)

  datatype SessionStatus = PendingApproval | SApproved | SRejected | Redeemed | Expired

  datatype Session = Session(request: nat, status: SessionStatus, expiresAt: int)

  /** `checkedAt` is the clock at which the minting transaction compared expires_at. */
  datatype Key = Key(session: nat, checkedAt: int)

  /** A redeeming transaction holds the session row (FOR UPDATE) and keeps its writes to itself until it commits. */
  datatype RedeemPhase = Reading(tokenOk: bool) | Failing | Minted(key: Key) | Marked(key: Key)

  datatype Redeem = Redeem(session: nat, phase: RedeemPhase, wrote: Option<SessionStatus>)

  datatype Tables = Tables(requests: map<nat, Request>, sessions: map<nat, Session>, keys: map<nat, Key>)

  datatype State = State(db: Tables, txs: map<nat, Redeem>, clock: int)

  const START := State(Tables(map[], map[], map[]), map[], 0)

  datatype Action =
    | Submit(request: nat)
    | Register(request: nat, session: nat, ttl: nat)
    | Approve(request: nat, reviewer: Option<string>)
    | Dispatch(request: nat, hasExecutor: bool)
    | MarkApproved(request: nat)
    | ExecutorReturns(request: nat)
    | ExecutorRaises(request: nat)
    | MarkFailed(request: nat)
    | Reject(request: nat, reviewer: Option<string>)
    | MarkRejected(request: nat)
    | ReviewerDies(request: nat)
    | Expire(session: nat)
    | BeginRedeem(tx: nat, session: nat, tokenOk: bool)
    | ContinueRedeem(tx: nat, keyId: nat)
    | AbortRedeem(tx: nat)
    | Tick(seconds: nat)

  // ---------- statements ----------

  predicate Locked(s: State, session: nat) {
    exists tx :: tx in s.txs && s.txs[tx].session == session
  }

  predicate AnyLocked(s: State, request: nat) {
    exists tx :: tx in s.txs && s.txs[tx].session in s.db.sessions
      && s.db.sessions[s.txs[tx].session].request == request
  }

  function SetRequest(s: State, id: nat, r: Request): State {
    s.(db := s.db.(requests := s.db.requests[id := r]))
  }

  function SetSession(s: State, id: nat, e: Session): State {
    s.(db := s.db.(sessions := s.db.sessions[id := e]))
  }

  /** `mark_approved.sql` and `mark_rejected.sql`: by request, and only from pending_approval. */
  function MarkSessions(s: State, request: nat, to: SessionStatus): State {
    s.(db := s.db.(sessions := map id | id in s.db.sessions ::
      if s.db.sessions[id].request == request && s.db.sessions[id].status == PendingApproval
      then s.db.sessions[id].(status := to) else s.db.sessions[id]))
  }

  function Drop(s: State, tx: nat): State {
    s.(txs := s.txs - {tx})
  }

  predicate InPhase(s: State, request: nat, phase: Reviewing) {
    request in s.db.requests && s.db.requests[request].phase == phase
  }

  // ---------- steps ----------

  function ReviewStep(s: State, a: Action): State {
    match a
    case Submit(q) =>
      if q in s.db.requests then s else SetRequest(s, q, Request(Pending, false, None, Nobody, 0, 0))
    case Register(q, e, ttl) =>
      if q in s.db.requests || e in s.db.sessions then s
      else
        var asked := SetRequest(s, q, Request(Pending, true, None, Nobody, 0, 0));
        SetSession(asked, e, Session(q, PendingApproval, s.clock + ttl))
    case Approve(q, reviewer) =>
      if q in s.db.requests && s.db.requests[q].status == Pending
      then SetRequest(s, q, s.db.requests[q].(status := Approved, reviewer := reviewer, phase := Dispatching,
                                              left := s.db.requests[q].left + 1))
      else s
    case Dispatch(q, hasExecutor) =>
      if !InPhase(s, q, Dispatching) then s
      else if hasExecutor
      then SetRequest(s, q, s.db.requests[q].(phase := Executing, runs := s.db.requests[q].runs + 1))
      else SetRequest(s, q, s.db.requests[q].(phase := Finished, status := ApprovedFailed))
    case MarkApproved(q) =>
      if InPhase(s, q, Executing) && s.db.requests[q].registers && s.db.requests[q].reviewer.Some? && !AnyLocked(s, q)
      then MarkSessions(s, q, SApproved) else s
    case ExecutorReturns(q) =>
      if InPhase(s, q, Executing) then SetRequest(s, q, s.db.requests[q].(phase := Finished)) else s
    case ExecutorRaises(q) =>
      if InPhase(s, q, Executing) then SetRequest(s, q, s.db.requests[q].(phase := Raised)) else s
    case MarkFailed(q) =>
      if InPhase(s, q, Raised)
      then SetRequest(s, q, s.db.requests[q].(phase := Finished, status := ApprovedFailed)) else s
    case Reject(q, reviewer) =>
      if q in s.db.requests && s.db.requests[q].status == Pending
      then SetRequest(s, q, s.db.requests[q].(status := Rejected, reviewer := reviewer, phase := Rejecting,
                                              left := s.db.requests[q].left + 1))
      else s
    case MarkRejected(q) =>
      if InPhase(s, q, Rejecting) && s.db.requests[q].registers && !AnyLocked(s, q)
      then MarkSessions(s, q, SRejected) else s
    case ReviewerDies(q) =>
      if q in s.db.requests && s.db.requests[q].phase != Nobody
      then SetRequest(s, q, s.db.requests[q].(phase := Finished)) else s
    case _ => s
  }

  /** One statement of a redeeming transaction, or its end. A raise rolls the transaction back. */
  function ContinueStep(s: State, tx: nat, keyId: nat): State
    requires tx in s.txs && s.txs[tx].session in s.db.sessions
  {
    var t := s.txs[tx];
    var session := s.db.sessions[t.session];
    match t.phase
    case Reading(tokenOk) =>
      if !tokenOk then Drop(s, tx)
      else if s.clock >= session.expiresAt then
        var wrote := if session.status == PendingApproval || session.status == SApproved then Some(Expired) else None;
        s.(txs := s.txs[tx := t.(phase := Failing, wrote := wrote)])
      else if session.status != SApproved then Drop(s, tx)
      else s.(txs := s.txs[tx := t.(phase := Minted(Key(t.session, s.clock)))])
    case Failing => Drop(s, tx)
    case Minted(key) =>
      if session.status != SApproved then Drop(s, tx)
      else s.(txs := s.txs[tx := t.(phase := Marked(key), wrote := Some(Redeemed))])
    case Marked(key) =>
      if keyId in s.db.keys || t.wrote.None? then s
      else
        var committed := SetSession(s, t.session, session.(status := t.wrote.value));
        Drop(committed.(db := committed.db.(keys := s.db.keys[keyId := key])), tx)
  }

  function Step(s: State, a: Action): State {
    match a
    case Expire(e) =>
      if e in s.db.sessions && s.clock >= s.db.sessions[e].expiresAt && !Locked(s, e)
         && (s.db.sessions[e].status == PendingApproval || s.db.sessions[e].status == SApproved)
      then SetSession(s, e, s.db.sessions[e].(status := Expired)) else s
    case BeginRedeem(tx, e, tokenOk) =>
      if tx in s.txs || e !in s.db.sessions || Locked(s, e) then s
      else s.(txs := s.txs[tx := Redeem(e, Reading(tokenOk), None)])
    case ContinueRedeem(tx, keyId) =>
      if tx in s.txs && s.txs[tx].session in s.db.sessions then ContinueStep(s, tx, keyId) else s
    case AbortRedeem(tx) => Drop(s, tx)
    case Tick(seconds) => s.(clock := s.clock + seconds)
    case _ => ReviewStep(s, a)
  }

  function Run(s: State, actions: seq<Action>): State {
    if actions == [] then s else Step(Run(s, actions[..|actions| - 1]), actions[|actions| - 1])
  }

  // ---------- invariants ----------

  function KeysOf(s: State, session: nat): set<nat> {
    set k | k in s.db.keys && s.db.keys[k].session == session
  }

  /** A session has one minted key iff it is redeemed; every key was minted in time. */
  ghost predicate KeysOk(s: State) {
    && (forall e :: e in s.db.sessions ==> |KeysOf(s, e)| == if s.db.sessions[e].status == Redeemed then 1 else 0)
    && (forall k :: k in s.db.keys ==> s.db.keys[k].session in s.db.sessions
                                       && s.db.keys[k].checkedAt < s.db.sessions[s.db.keys[k].session].expiresAt)
  }

  ghost predicate TxOk(s: State, t: Redeem) {
    && t.session in s.db.sessions
    && (t.phase.Minted? || t.phase.Marked? ==>
          s.db.sessions[t.session].status == SApproved && t.phase.key.session == t.session
          && t.phase.key.checkedAt < s.db.sessions[t.session].expiresAt)
    && (t.phase.Marked? ==> t.wrote == Some(Redeemed))
  }

  /** Row locks: one redeeming transaction per session. */
  ghost predicate TxsOk(s: State) {
    && (forall tx :: tx in s.txs ==> TxOk(s, s.txs[tx]))
    && (forall a, b :: a in s.txs && b in s.txs && s.txs[a].session == s.txs[b].session ==> a == b)
  }

  ghost predicate RequestOk(q: Request) {
    && q.left == (if q.status == Pending then 0 else 1)
    && (q.status == Pending <==> q.phase == Nobody)
    && (q.phase == Dispatching ==> q.status == Approved && q.runs == 0)
    && (q.phase == Executing || q.phase == Raised ==> q.status == Approved && q.runs == 1)
    && (q.phase == Rejecting ==> q.status == Rejected)
    && q.runs <= 1 && (q.status == Pending || q.status == Rejected ==> q.runs == 0)
  }

  ghost predicate SessionOk(s: State, e: Session) {
    && e.request in s.db.requests && s.db.requests[e.request].registers
    && (e.status == SApproved || e.status == Redeemed ==>
          var q := s.db.requests[e.request];
          (q.status == Approved || q.status == ApprovedFailed) && q.reviewer.Some? && q.runs == 1)
    && (e.status == SRejected ==> s.db.requests[e.request].status == Rejected)
  }

  ghost predicate ReviewsOk(s: State) {
    && (forall q :: q in s.db.requests ==> RequestOk(s.db.requests[q]))
    && (forall e :: e in s.db.sessions ==> SessionOk(s, s.db.sessions[e]))
  }

  ghost predicate Inv(s: State) {
    KeysOk(s) && TxsOk(s) && ReviewsOk(s)
  }

  // ---------- each step keeps the invariants ----------

  /** How a reviewed request may still change. */
  ghost predicate Follows(q: Request, r: Request) {
    q.reviewer == r.reviewer && q.runs <= r.runs
      && (r.status == q.status || (q.status == Approved && r.status == ApprovedFailed))
  }

  lemma RequestChange(s: State, id: nat, r: Request)
    requires Inv(s) && RequestOk(r)
    requires id in s.db.requests ==>
               var q := s.db.requests[id];
               && q.registers == r.registers
               && (q.status == Pending || Follows(q, r))
    ensures Inv(SetRequest(s, id, r))
  {
    var after := SetRequest(s, id, r);
    assert forall e :: KeysOf(after, e) == KeysOf(s, e);
    assert forall e :: e in s.db.sessions ==> SessionOk(s, s.db.sessions[e]) && SessionOk(after, s.db.sessions[e]);
    assert forall tx :: tx in s.txs ==> TxOk(s, s.txs[tx]) && TxOk(after, s.txs[tx]);
  }

  lemma MarkKeepsInv(s: State, request: nat, to: SessionStatus)
    requires Inv(s) && (to == SApproved || to == SRejected)
    requires request in s.db.requests && s.db.requests[request].registers
    requires var q := s.db.requests[request];
             if to == SApproved then q.status == Approved && q.reviewer.Some? && q.runs == 1 else q.status == Rejected
    ensures Inv(MarkSessions(s, request, to))
  {
    MarkKeysOk(s, request, to);
    MarkTxsOk(s, request, to);
    MarkReviewsOk(s, request, to);
  }

  lemma MarkKeysOk(s: State, request: nat, to: SessionStatus)
    requires KeysOk(s) && to != Redeemed
    ensures KeysOk(MarkSessions(s, request, to))
  {
    assert forall e :: KeysOf(MarkSessions(s, request, to), e) == KeysOf(s, e);
  }

  lemma MarkTxsOk(s: State, request: nat, to: SessionStatus)
    requires TxsOk(s)
    ensures TxsOk(MarkSessions(s, request, to))
  {
    forall tx | tx in s.txs ensures TxOk(MarkSessions(s, request, to), s.txs[tx]) {
      assert TxOk(s, s.txs[tx]);
    }
  }

  lemma MarkReviewsOk(s: State, request: nat, to: SessionStatus)
    requires ReviewsOk(s) && (to == SApproved || to == SRejected)
    requires request in s.db.requests && s.db.requests[request].registers
    requires var q := s.db.requests[request];
             if to == SApproved then q.status == Approved && q.reviewer.Some? && q.runs == 1 else q.status == Rejected
    ensures ReviewsOk(MarkSessions(s, request, to))
  {
    var after := MarkSessions(s, request, to);
    forall e | e in after.db.sessions ensures SessionOk(after, after.db.sessions[e]) {
      assert SessionOk(s, s.db.sessions[e]);
    }
  }

  lemma SessionChange(s: State, id: nat, e: Session)
    requires Inv(s) && SessionOk(s, e) && e.status != Redeemed
    requires id in s.db.sessions ==>
               !Locked(s, id) && s.db.sessions[id].status != Redeemed && e.expiresAt == s.db.sessions[id].expiresAt
    ensures Inv(SetSession(s, id, e))
  {
    var after := SetSession(s, id, e);
    SessionChangeKeysOk(s, id, e);
    forall tx | tx in s.txs ensures TxOk(after, s.txs[tx]) {
      assert TxOk(s, s.txs[tx]);
    }
    forall x | x in after.db.sessions ensures SessionOk(after, after.db.sessions[x]) {
      assert x != id ==> SessionOk(s, s.db.sessions[x]);
    }
  }

  lemma SessionChangeKeysOk(s: State, id: nat, e: Session)
    requires KeysOk(s) && e.status != Redeemed
    requires id in s.db.sessions ==> s.db.sessions[id].status != Redeemed && e.expiresAt == s.db.sessions[id].expiresAt
    ensures KeysOk(SetSession(s, id, e))
  {
    assert forall x :: KeysOf(SetSession(s, id, e), x) == KeysOf(s, x);
    assert id !in s.db.sessions ==> KeysOf(s, id) == {};
  }

  lemma RegisterKeepsInv(s: State, q: nat, e: nat, ttl: nat)
    requires Inv(s) && q !in s.db.requests && e !in s.db.sessions
    ensures Inv(ReviewStep(s, Register(q, e, ttl)))
  {
    var r := Request(Pending, true, None, Nobody, 0, 0);
    var mid, session := SetRequest(s, q, r), Session(q, PendingApproval, s.clock + ttl);
    RequestChange(s, q, r);
    assert SessionOk(mid, session);
    SessionChange(mid, e, session);
    assert ReviewStep(s, Register(q, e, ttl)) == SetSession(mid, e, session);
  }

  lemma ReviewKeepsInv(s: State, a: Action)
    requires Inv(s)
    ensures Inv(ReviewStep(s, a))
  {
    match a
    case Submit(q) =>
      if q !in s.db.requests {
        RequestChange(s, q, Request(Pending, false, None, Nobody, 0, 0));
      }
    case Register(q, e, ttl) =>
      if q !in s.db.requests && e !in s.db.sessions {
        RegisterKeepsInv(s, q, e, ttl);
      }
    case MarkApproved(q) => MarkStepKeepsInv(s, a, q);
    case MarkRejected(q) => MarkStepKeepsInv(s, a, q);
    case Approve(q, _) => SetKeepsInv(s, a, q);
    case Dispatch(q, _) => SetKeepsInv(s, a, q);
    case ExecutorReturns(q) => SetKeepsInv(s, a, q);
    case ExecutorRaises(q) => SetKeepsInv(s, a, q);
    case MarkFailed(q) => SetKeepsInv(s, a, q);
    case Reject(q, _) => SetKeepsInv(s, a, q);
    case ReviewerDies(q) => SetKeepsInv(s, a, q);
    case _ =>
  }

  /** The steps that change the session rows of one request. */
  lemma MarkStepKeepsInv(s: State, a: Action, q: nat)
    requires Inv(s) && (a.MarkApproved? || a.MarkRejected?) && q == a.request
    ensures Inv(ReviewStep(s, a))
  {
    if ReviewStep(s, a) != s {
      MarkingIsDue(s, a, q);
      MarkKeepsInv(s, q, if a.MarkApproved? then SApproved else SRejected);
    }
  }

  lemma MarkingIsDue(s: State, a: Action, q: nat)
    requires ReviewsOk(s) && (a.MarkApproved? || a.MarkRejected?) && q == a.request && ReviewStep(s, a) != s
    ensures ReviewStep(s, a) == MarkSessions(s, q, if a.MarkApproved? then SApproved else SRejected)
    ensures q in s.db.requests && s.db.requests[q].registers
    ensures var r := s.db.requests[q];
            if a.MarkApproved? then r.status == Approved && r.reviewer.Some? && r.runs == 1 else r.status == Rejected
  {
    assert RequestOk(s.db.requests[q]);
  }

  /** The steps that change one request row. */
  lemma SetKeepsInv(s: State, a: Action, q: nat)
    requires Inv(s)
    requires a.Approve? || a.Dispatch? || a.ExecutorReturns? || a.ExecutorRaises? || a.MarkFailed? || a.Reject?
             || a.ReviewerDies?
    requires q == a.request
    ensures Inv(ReviewStep(s, a))
  {
    if ReviewStep(s, a) != s {
      SetIsAllowed(s, a, q);
      RequestChange(s, q, ReviewStep(s, a).db.requests[q]);
    }
  }

  lemma SetIsAllowed(s: State, a: Action, q: nat)
    requires ReviewsOk(s) && ReviewStep(s, a) != s && q == a.request
    requires a.Approve? || a.Dispatch? || a.ExecutorReturns? || a.ExecutorRaises? || a.MarkFailed? || a.Reject?
             || a.ReviewerDies?
    ensures q in s.db.requests && q in ReviewStep(s, a).db.requests
    ensures var was, r := s.db.requests[q], ReviewStep(s, a).db.requests[q];
            && ReviewStep(s, a) == SetRequest(s, q, r) && RequestOk(r)
            && was.registers == r.registers && (was.status == Pending || Follows(was, r))
  {
    assert RequestOk(s.db.requests[q]);
  }

  lemma DropKeepsInv(s: State, tx: nat)
    requires Inv(s)
    ensures Inv(Drop(s, tx))
  {
    var after := Drop(s, tx);
    assert forall e :: KeysOf(after, e) == KeysOf(s, e);
    assert forall t :: TxOk(s, t) ==> TxOk(after, t);
    assert forall e :: SessionOk(s, e) ==> SessionOk(after, e);
  }

  lemma TxChange(s: State, tx: nat, t: Redeem)
    requires Inv(s) && TxOk(s, t)
    requires forall b :: b in s.txs && s.txs[b].session == t.session ==> b == tx
    ensures Inv(s.(txs := s.txs[tx := t]))
  {
    var after := s.(txs := s.txs[tx := t]);
    assert forall e :: KeysOf(after, e) == KeysOf(s, e);
    assert forall x :: TxOk(s, x) ==> TxOk(after, x);
    assert forall e :: SessionOk(s, e) ==> SessionOk(after, e);
  }

  lemma CommitKeepsInv(s: State, tx: nat, keyId: nat)
    requires Inv(s) && tx in s.txs && s.txs[tx].phase.Marked? && keyId !in s.db.keys
    ensures s.txs[tx].session in s.db.sessions && Inv(ContinueStep(s, tx, keyId))
  {
    var t := s.txs[tx];
    assert TxOk(s, t);
    var after := ContinueStep(s, tx, keyId);
    CommitKeysOk(s, tx, keyId);
    assert TxsOk(after) by {
      forall x | x in after.txs ensures TxOk(after, after.txs[x]) {
        assert TxOk(s, s.txs[x]) && s.txs[x].session != t.session;
      }
    }
    assert ReviewsOk(after) by {
      forall e | e in after.db.sessions ensures SessionOk(after, after.db.sessions[e]) {
        assert SessionOk(s, s.db.sessions[e]);
      }
    }
  }

  lemma CommitKeysOk(s: State, tx: nat, keyId: nat)
    requires KeysOk(s) && tx in s.txs && TxOk(s, s.txs[tx]) && s.txs[tx].phase.Marked? && keyId !in s.db.keys
    ensures KeysOk(ContinueStep(s, tx, keyId))
  {
    var after, minted := ContinueStep(s, tx, keyId), s.txs[tx].session;
    assert KeysOf(s, minted) == {};
    assert KeysOf(after, minted) == {keyId};
    forall e | e in after.db.sessions && e != minted
      ensures KeysOf(after, e) == KeysOf(s, e)
    {
    }
  }

  lemma ContinueKeepsInv(s: State, tx: nat, keyId: nat)
    requires Inv(s) && tx in s.txs
    ensures s.txs[tx].session in s.db.sessions && Inv(ContinueStep(s, tx, keyId))
  {
    var t := s.txs[tx];
    assert TxOk(s, t);
    var after := ContinueStep(s, tx, keyId);
    if t.phase.Marked? {
      if keyId !in s.db.keys {
        CommitKeepsInv(s, tx, keyId);
      }
    } else if after == Drop(s, tx) {
      DropKeepsInv(s, tx);
    } else {
      TxChange(s, tx, after.txs[tx]);
    }
  }

  lemma StepKeepsInv(s: State, a: Action)
    requires Inv(s)
    ensures Inv(Step(s, a))
  {
    match a
    case Expire(e) =>
      if Step(s, a) != s {
        ExpireKeepsInv(s, e);
      }
    case BeginRedeem(tx, e, tokenOk) =>
      if Step(s, a) != s {
        TxChange(s, tx, Redeem(e, Reading(tokenOk), None));
      }
    case ContinueRedeem(tx, keyId) =>
      if tx in s.txs {
        ContinueKeepsInv(s, tx, keyId);
      }
    case AbortRedeem(tx) => DropKeepsInv(s, tx);
    case Tick(seconds) => TickKeepsInv(s, seconds);
    case _ => ReviewKeepsInv(s, a);
  }

  lemma ExpireKeepsInv(s: State, e: nat)
    requires Inv(s) && Step(s, Expire(e)) != s
    ensures Inv(Step(s, Expire(e)))
  {
    SessionChange(s, e, s.db.sessions[e].(status := Expired));
  }

  lemma TickKeepsInv(s: State, seconds: nat)
    requires Inv(s)
    ensures Inv(Step(s, Tick(seconds)))
  {
    var after := Step(s, Tick(seconds));
    assert forall e :: KeysOf(after, e) == KeysOf(s, e);
    assert forall t :: TxOk(s, t) ==> TxOk(after, t);
    assert forall e :: SessionOk(s, e) ==> SessionOk(after, e);
  }

  lemma {:induction false} RunInv(actions: seq<Action>)
    ensures Inv(Run(START, actions))
  {
    if actions != [] {
      RunInv(actions[..|actions| - 1]);
      StepKeepsInv(Run(START, actions[..|actions| - 1]), actions[|actions| - 1]);
    } else {
      assert forall e :: KeysOf(START, e) == {};
    }
  }
}
