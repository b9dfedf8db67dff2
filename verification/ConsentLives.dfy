// What becomes of a registration. The desk is nothing but its registrations,
// each living by itself, so its whole state can be told from the requests.
module ConsentLives {
  import opened Wrappers
  import opened ConsentDesk
  import opened ConsentRuns

  // ----- one request and one ceremony -----

  // What a request makes of a ceremony that expiry has passed over.
  function Served(e: Ceremony, op: Op): Option<Ceremony>
    requires !op.Clear?
  {
    match op
    case Register(_, _) => Some(e)
    case Approve(nonce, credential, proofOk, _) =>
      Some(if e.Named(nonce) then Answered(e, credential, proofOk).0 else e)
    case Refuse(nonce, reason, _) => Some(if e.Named(nonce) then e.(state := Refused(reason)) else e)
    case Defer(nonce, _) => Some(if e.Named(nonce) then e.(state := Deferred) else e)
    case Take(nonce, collector, _) => if Collectable(e, nonce, collector) then None else Some(e)
  }

  // What a request makes of a pending ceremony; nothing when it is gone.
  function Becomes(c: Ceremony, op: Op): Option<Ceremony> {
    if op.Clear? || !Young(c, op.now) then None else Served(Lapse(c, op.now), op)
  }

  ghost predicate NewFrom(d: Ceremony, op: Op, out: Outcome) {
    && op.Register? && out == Registered(op.request.nonce)
    && d == Ceremony(op.request, op.now, 0, AwaitingHuman)
  }

  lemma EditActsAlone(q: Pending, op: Op, i: nat, e: Ceremony, d: Ceremony)
    requires Sound(q) && i < |q| && !op.Clear? && Served(q[i], op) == Some(e)
    requires forall j :: 0 <= j < |q| && j != i ==> Served(q[j], op) == Some(q[j])
    ensures d in q[i := e] <==> exists c :: c in q && Served(c, op) == Some(d)
  {
    hide Served;
    var r := q[i := e];
    if d in r {
      var j :| 0 <= j < |r| && r[j] == d;
      assert q[j] in q && Served(q[j], op) == Some(d);
    }
    if c :| c in q && Served(c, op) == Some(d) {
      var j :| 0 <= j < |q| && q[j] == c;
      assert r[j] == d;
    }
  }

  lemma TakeActsAlone(q: Pending, op: Op, i: nat, d: Ceremony)
    requires Sound(q) && i < |q| && op.Take? && Collectable(q[i], op.nonce, op.collector)
    ensures d in q[..i] + q[i + 1..] <==> exists c :: c in q && Served(c, op) == Some(d)
  {
    var r := q[..i] + q[i + 1..];
    if d in r {
      var j :| 0 <= j < |q| && j != i && q[j] == d;
      assert d in q && Served(d, op) == Some(d);
    }
    if c :| c in q && Served(c, op) == Some(d) {
      var j :| 0 <= j < |q| && q[j] == c;
      assert j < i ==> r[j] == c;
      assert j > i ==> r[j - 1] == c;
    }
  }

  lemma ServeActsAlone(q: Pending, op: Op, d: Ceremony)
    requires Sound(q) && !op.Clear?
    ensures d in Serve(q, op).0 <==>
            NewFrom(d, op, Serve(q, op).1) || exists c :: c in q && Served(c, op) == Some(d)
  {
    match op
    case Register(r, now) =>
      assert forall c :: c in q ==> Served(c, op) == Some(c);
    case Approve(nonce, credential, proofOk, _) =>
      if Find(q, nonce).Some? {
        var i := Find(q, nonce).value;
        EditActsAlone(q, op, i, Answered(q[i], credential, proofOk).0, d);
      } else {
        assert forall c :: c in q ==> Served(c, op) == Some(c);
      }
    case Refuse(nonce, reason, _) =>
      if Find(q, nonce).Some? {
        var i := Find(q, nonce).value;
        EditActsAlone(q, op, i, q[i].(state := Refused(reason)), d);
      } else {
        assert forall c :: c in q ==> Served(c, op) == Some(c);
      }
    case Defer(nonce, _) =>
      if Find(q, nonce).Some? {
        var i := Find(q, nonce).value;
        EditActsAlone(q, op, i, q[i].(state := Deferred), d);
      } else {
        assert forall c :: c in q ==> Served(c, op) == Some(c);
      }
    case Take(nonce, collector, _) =>
      if FindCollectable(q, nonce, collector).Some? {
        TakeActsAlone(q, op, FindCollectable(q, nonce, collector).value, d);
      } else {
        assert forall c :: c in q ==> Served(c, op) == Some(c);
      }
  }

  // After a request the desk holds what it makes of each pending ceremony, and
  // the one it registers, and nothing else.
  lemma StepActsAlone(p: Pending, op: Op, d: Ceremony)
    requires Sound(p)
    ensures d in Step(p, op).0 <==>
            NewFrom(d, op, Step(p, op).1) || exists c :: c in p && Becomes(c, op) == Some(d)
  {
    hide Serve;
    hide Served;
    hide Expire;
    hide NewFrom;
    hide Sound;
    if op.Clear? {
      NothingNew(d, op);
    } else {
      var q := Expire(p, op.now);
      ExpireKeepsSound(p, op.now);
      ServeActsAlone(q, op, d);
      if e :| e in q && Served(e, op) == Some(d) {
        ExpireEntries(p, op.now, e);
        var c :| c in p && Young(c, op.now) && e == Lapse(c, op.now);
        assert Becomes(c, op) == Some(d);
      }
      if c :| c in p && Becomes(c, op) == Some(d) {
        ExpireEntries(p, op.now, Lapse(c, op.now));
      }
    }
  }

  lemma NothingNew(d: Ceremony, op: Op)
    requires op.Clear?
    ensures !NewFrom(d, op, Done)
  {
  }

  // After any request but `Clear` nothing pending was registered 240 s before
  // it or longer.
  lemma ExpiringFreesTheSlot(p: Pending, op: Op, d: Ceremony)
    requires Sound(p) && !op.Clear? && d in Step(p, op).0
    ensures op.now < d.registeredAt + 240 * SECOND
  {
    hide Step;
    StepActsAlone(p, op, d);
  }

  // ----- the life of one registration -----

  predicate Registers(ops: seq<Op>, i: nat)
    requires i < |ops|
  {
    ops[i].Register? && OutcomeAt(ops, i) == Registered(ops[i].request.nonce)
  }

  // What request `i` registered, after the requests before `k`.
  function Life(ops: seq<Op>, i: nat, k: nat): Option<Ceremony>
    requires i < k <= |ops| && ops[i].Register?
    decreases k
  {
    if k == i + 1 then Some(Ceremony(ops[i].request, ops[i].now, 0, AwaitingHuman))
    else match Life(ops, i, k - 1)
         case None => None
         case Some(c) => Becomes(c, ops[k - 1])
  }

  // In every run, what is pending is what is left of each registration, each
  // treated by the requests as if it were alone on the desk.
  lemma {:induction false} DeskIsItsLives(ops: seq<Op>, k: nat, d: Ceremony)
    requires k <= |ops|
    ensures d in PendingAt(ops, k) <==> exists i :: 0 <= i < k && Registers(ops, i) && Life(ops, i, k) == Some(d)
    decreases k
  {
    hide Step;
    hide Becomes;
    if k > 0 {
      var p, op := PendingAt(ops, k - 1), ops[k - 1];
      ReachableIsSound(ops, k - 1);
      StepActsAlone(p, op, d);
      if NewFrom(d, op, OutcomeAt(ops, k - 1)) {
        assert Registers(ops, k - 1) && Life(ops, k - 1, k) == Some(d);
      } else if c :| c in p && Becomes(c, op) == Some(d) {
        DeskIsItsLives(ops, k - 1, c);
        var i :| 0 <= i < k - 1 && Registers(ops, i) && Life(ops, i, k - 1) == Some(c);
        assert Life(ops, i, k) == Some(d);
      }
      if i :| 0 <= i < k && Registers(ops, i) && Life(ops, i, k) == Some(d) {
        if i < k - 1 {
          DeskIsItsLives(ops, k - 1, Life(ops, i, k - 1).value);
        }
      }
    }
  }

  // Requests leave alone what was frozen at registration.
  lemma {:induction false} LifeIsFrozen(ops: seq<Op>, i: nat, k: nat)
    requires i < k <= |ops| && ops[i].Register? && Life(ops, i, k).Some?
    ensures var c := Life(ops, i, k).value; c.request == ops[i].request && c.registeredAt == ops[i].now
    decreases k
  {
    if k > i + 1 {
      LifeIsFrozen(ops, i, k - 1);
    }
  }

  lemma {:induction false} LifeWasThere(ops: seq<Op>, i: nat, j: nat, k: nat)
    requires i < j <= k <= |ops| && ops[i].Register? && Life(ops, i, k).Some?
    ensures Life(ops, i, j).Some?
    decreases k
  {
    if j < k {
      LifeWasThere(ops, i, j, k - 1);
    }
  }

  // ----- answers -----

  predicate TurnsAway(op: Op, nonce: Utf8) {
    (op.Refuse? || op.Defer?) && op.nonce == nonce
  }

  function TurnedTo(op: Op): State
    requires op.Refuse? || op.Defer?
  {
    if op.Refuse? then Refused(op.reason) else Deferred
  }

  predicate Late(op: Op, registeredAt: Time) {
    !op.Clear? && op.now >= registeredAt + CEREMONY_TTL
  }

  predicate WrongFor(op: Op, nonce: Utf8) {
    op.Approve? && op.nonce == nonce && !op.proofOk
  }

  predicate Grants(op: Op, r: Request) {
    op.Approve? && op.nonce == r.nonce && op.proofOk && Suitable(r, op.credential)
  }

  function Granted(op: Op, r: Request): State
    requires Grants(op, r)
  {
    Approved(if op.credential.Some? then op.credential.value
             else if r.choices == [] then [] else r.choices[0].credentialId)
  }

  // Wrong proofs given for the registration at `i` before request `k`.
  function Wrongs(ops: seq<Op>, i: nat, k: nat): nat
    requires i < k <= |ops| && ops[i].Register?
    decreases k
  {
    if k == i + 1 then 0
    else Wrongs(ops, i, k - 1) + (if WrongFor(ops[k - 1], ops[i].request.nonce) then 1 else 0)
  }

  // No request before `k` has refused it, deferred it, granted it, come too
  // late for it or spent its last wrong proof.
  ghost predicate Unanswered(ops: seq<Op>, i: nat, k: nat)
    requires i < k <= |ops| && ops[i].Register?
  {
    var r := ops[i].request;
    && Wrongs(ops, i, k) < MAX_PROOF_ATTEMPTS
    && forall m :: i < m < k ==> !TurnsAway(ops[m], r.nonce) && !Late(ops[m], ops[i].now) && !Grants(ops[m], r)
  }

  // The state request `j` gives the registration at `i`, if it gives it one.
  ghost function AnswerAt(ops: seq<Op>, i: nat, j: nat): Option<State>
    requires i < j < |ops| && ops[i].Register?
  {
    var op, r := ops[j], ops[i].request;
    if TurnsAway(op, r.nonce) then Some(TurnedTo(op))
    else if !Unanswered(ops, i, j) then None
    else if Late(op, ops[i].now) then Some(Refused("the request expired before it was answered"))
    else if Grants(op, r) then Some(Granted(op, r))
    else if WrongFor(op, r.nonce) && Wrongs(ops, i, j) + 1 == MAX_PROOF_ATTEMPTS
    then Some(Refused("too many wrong passphrases; the request was refused"))
    else None
  }

  ghost predicate AnswersLast(ops: seq<Op>, i: nat, j: nat, k: nat, s: State)
    requires i < j < k <= |ops| && ops[i].Register?
  {
    AnswerAt(ops, i, j) == Some(s) && forall m :: j < m < k ==> AnswerAt(ops, i, m) == None
  }

  ghost predicate LastAnswerIs(ops: seq<Op>, i: nat, k: nat, s: State)
    requires i < k <= |ops| && ops[i].Register?
  {
    exists j :: i < j < k && AnswersLast(ops, i, j, k, s)
  }

  // Where a life stands: waiting exactly when nothing has answered it, and
  // with every wrong proof counted.
  ghost predicate Stands(ops: seq<Op>, i: nat, k: nat, c: Ceremony)
    requires i < k <= |ops| && ops[i].Register?
  {
    && c.request == ops[i].request && c.registeredAt == ops[i].now
    && (c.state == AwaitingHuman <==> Unanswered(ops, i, k))
    && (Unanswered(ops, i, k) ==> c.attempts == Wrongs(ops, i, k) < MAX_PROOF_ATTEMPTS)
  }

  lemma UnansweredStep(ops: seq<Op>, i: nat, k: nat)
    requires i < k < |ops| && ops[i].Register?
    ensures Unanswered(ops, i, k + 1) <==> Unanswered(ops, i, k) && AnswerAt(ops, i, k) == None
  {
    hide Grants;
  }

  lemma ChosenIsGranted(op: Op, r: Request)
    requires op.Approve? && op.nonce == r.nonce && op.proofOk
    ensures Chosen(r, op.credential).Ok? <==> Grants(op, r)
    ensures Grants(op, r) ==> Approved(Chosen(r, op.credential).value) == Granted(op, r)
  {
  }

  // What an attempt to approve makes of the ceremony it names.
  lemma ApproveBecomes(c: Ceremony, op: Op)
    requires op.Approve? && c.Named(op.nonce) && Becomes(c, op).Some?
    ensures Becomes(c, op).value ==
            if c.state != AwaitingHuman || c.IsExpired(op.now) then Lapse(c, op.now)
            else if Grants(op, c.request) then c.(state := Granted(op, c.request))
            else if op.proofOk then c
            else if c.attempts + 1 >= MAX_PROOF_ATTEMPTS
            then c.(attempts := c.attempts + 1, state := Refused("too many wrong passphrases; the request was refused"))
            else c.(attempts := c.attempts + 1)
  {
    hide Suitable;
    hide Chosen;
    hide Granted;
    if op.proofOk {
      ChosenIsGranted(op, c.request);
    }
  }

  // What any other request makes of a ceremony.
  lemma OtherBecomes(c: Ceremony, op: Op)
    requires !(op.Approve? && c.Named(op.nonce)) && Becomes(c, op).Some?
    ensures !op.Clear?
    ensures Becomes(c, op).value ==
            if TurnsAway(op, c.request.nonce) then c.(state := TurnedTo(op)) else Lapse(c, op.now)
  {
  }

  lemma LifeStep(ops: seq<Op>, i: nat, k: nat, c: Ceremony, d: Ceremony)
    requires i < k < |ops| && ops[i].Register? && Stands(ops, i, k, c) && Becomes(c, ops[k]) == Some(d)
    ensures d.state == match AnswerAt(ops, i, k) { case Some(s) => s case None => c.state }
    ensures Stands(ops, i, k + 1, d)
  {
    hide Becomes;
    hide Unanswered;
    hide Suitable;
    UnansweredStep(ops, i, k);
    if ops[k].Approve? && c.Named(ops[k].nonce) {
      ApproveBecomes(c, ops[k]);
    } else {
      OtherBecomes(c, ops[k]);
    }
  }

  lemma {:induction false} LifeStands(ops: seq<Op>, i: nat, k: nat)
    requires i < k <= |ops| && ops[i].Register? && Life(ops, i, k).Some?
    ensures Stands(ops, i, k, Life(ops, i, k).value)
    decreases k
  {
    hide Becomes;
    hide AnswerAt;
    if k > i + 1 {
      LifeStands(ops, i, k - 1);
      LifeStep(ops, i, k - 1, Life(ops, i, k - 1).value, Life(ops, i, k).value);
    }
  }

  // Whatever the run, a pending registration waits exactly when nothing has
  // answered it, and otherwise is in the state its last answer gave it.
  lemma {:induction false} StateIsLastAnswer(ops: seq<Op>, i: nat, k: nat, s: State)
    requires i < k <= |ops| && ops[i].Register? && Life(ops, i, k).Some?
    ensures var c := Life(ops, i, k).value;
            && (c.state == AwaitingHuman <==> Unanswered(ops, i, k))
            && (s != AwaitingHuman ==>
                  (c.state == s <==> LastAnswerIs(ops, i, k, s)))
    decreases k
  {
    hide Becomes;
    hide AnswerAt;
    hide Unanswered;
    LifeStands(ops, i, k);
    if k == i + 1 {
      NothingAnsweredYet(ops, i);
    } else {
      StateIsLastAnswer(ops, i, k - 1, s);
      LifeStands(ops, i, k - 1);
      LifeStep(ops, i, k - 1, Life(ops, i, k - 1).value, Life(ops, i, k).value);
      AnswersGrow(ops, i, k, s);
    }
  }

  lemma NothingAnsweredYet(ops: seq<Op>, i: nat)
    requires i < |ops| && ops[i].Register?
    ensures Unanswered(ops, i, i + 1)
  {
  }

  lemma AnswersGrow(ops: seq<Op>, i: nat, k: nat, s: State)
    requires i + 1 < k <= |ops| && ops[i].Register?
    ensures LastAnswerIs(ops, i, k, s) <==>
            match AnswerAt(ops, i, k - 1)
            case Some(t) => s == t
            case None => LastAnswerIs(ops, i, k - 1, s)
  {
    hide AnswerAt;
    var h := k - 1;
    if AnswerAt(ops, i, h).Some? {
      if s == AnswerAt(ops, i, h).value {
        assert AnswersLast(ops, i, h, k, s);
      }
    } else {
      if j :| i < j < h && AnswersLast(ops, i, j, h, s) {
        assert AnswersLast(ops, i, j, k, s);
      }
      if j :| i < j < k && AnswersLast(ops, i, j, k, s) {
        assert AnswersLast(ops, i, j, h, s);
      }
    }
  }

  // ----- how long it lives -----

  // Request `m` leaves the registration pending: the desk is not cleared, the
  // slot has not run out, and no answer is handed to someone who may have it.
  ghost predicate Spares(ops: seq<Op>, i: nat, m: nat)
    requires i < m < |ops| && ops[i].Register?
  {
    var op, r := ops[m], ops[i].request;
    && !op.Clear?
    && op.now < ops[i].now + 2 * CEREMONY_TTL
    && !(op.Take? && op.nonce == r.nonce && (r.owner.None? || r.owner == op.collector)
         && (!Unanswered(ops, i, m) || Late(op, ops[i].now)))
  }

  lemma SparedExactly(ops: seq<Op>, i: nat, m: nat, c: Ceremony)
    requires i < m < |ops| && ops[i].Register? && Stands(ops, i, m, c)
    ensures Becomes(c, ops[m]).Some? <==> Spares(ops, i, m)
  {
    hide Unanswered;
  }

  // A registration is still pending exactly when every request spared it.
  lemma {:induction false} PendingExactlyWhenSpared(ops: seq<Op>, i: nat, k: nat)
    requires i < k <= |ops| && ops[i].Register?
    ensures Life(ops, i, k).Some? <==> forall m :: i < m < k ==> Spares(ops, i, m)
    decreases k
  {
    hide Becomes;
    hide Spares;
    if k > i + 1 {
      PendingExactlyWhenSpared(ops, i, k - 1);
      if Life(ops, i, k - 1).Some? {
        LifeStands(ops, i, k - 1);
        SparedExactly(ops, i, k - 1, Life(ops, i, k - 1).value);
      }
    }
  }

  // ----- an approval waiting to be collected -----

  // Request `m` neither takes away the approved ceremony nor overrules it.
  predicate LeavesApproved(op: Op, c: Ceremony) {
    && !op.Clear?
    && Young(c, op.now)
    && !(op.Take? && Collectable(c, op.nonce, op.collector))
    && !TurnsAway(op, c.request.nonce)
  }

  lemma ApprovalKeptExactly(c: Ceremony, op: Op)
    requires c.state.Approved?
    ensures Becomes(c, op) == Some(c) <==> LeavesApproved(op, c)
    ensures forall d :: Becomes(c, op) == Some(d) && d.state.Approved? ==> d == c
  {
  }

  // An approval survives exactly as long as no request clears the desk, hands
  // it over, turns it away or comes after its slot has run out.
  lemma {:induction false} ApprovalSurvivesExactly(ops: seq<Op>, i: nat, j: nat, k: nat)
    requires i < j <= k <= |ops| && ops[i].Register? && Life(ops, i, j).Some?
    requires Life(ops, i, j).value.state.Approved?
    ensures var c := Life(ops, i, j).value;
            (Life(ops, i, k).Some? && Life(ops, i, k).value.state.Approved?)
            <==> forall m :: j <= m < k ==> LeavesApproved(ops[m], c)
    ensures Life(ops, i, k).Some? && Life(ops, i, k).value.state.Approved? ==> Life(ops, i, k) == Life(ops, i, j)
    decreases k
  {
    hide Becomes;
    hide LeavesApproved;
    if j < k {
      var c := Life(ops, i, j).value;
      ApprovalSurvivesExactly(ops, i, j, k - 1);
      ApprovalKeptExactly(c, ops[k - 1]);
      if Life(ops, i, k - 1).Some? && !Life(ops, i, k - 1).value.state.Approved? {
        AnsweredForGood(ops, i, j, k - 1);
        NoSecondApproval(Life(ops, i, k - 1).value, ops[k - 1]);
      }
    }
  }

  lemma NoSecondApproval(c: Ceremony, op: Op)
    requires c.state != AwaitingHuman && !c.state.Approved?
    ensures Becomes(c, op).Some? ==> Becomes(c, op).value.state != AwaitingHuman && !Becomes(c, op).value.state.Approved?
  {
  }

  // Once answered, never waiting again.
  lemma {:induction false} AnsweredForGood(ops: seq<Op>, i: nat, j: nat, k: nat)
    requires i < j <= k <= |ops| && ops[i].Register? && Life(ops, i, j).Some? && Life(ops, i, k).Some?
    requires Life(ops, i, j).value.state != AwaitingHuman
    ensures Life(ops, i, k).value.state != AwaitingHuman
    decreases k
  {
    hide Becomes;
    if j < k {
      LifeWasThere(ops, i, k - 1, k);
      AnsweredForGood(ops, i, j, k - 1);
      StaysAnswered(Life(ops, i, k - 1).value, ops[k - 1]);
    }
  }

  lemma StaysAnswered(c: Ceremony, op: Op)
    requires c.state != AwaitingHuman
    ensures Becomes(c, op).Some? ==> Becomes(c, op).value.state != AwaitingHuman
  {
  }

  // An approval that was neither collected nor left alone: two seconds after
  // it, the request is deferred.
  lemma ApprovalCanBeOverruled(r: Request) returns (ops: seq<Op>)
    requires |r.nonce| >= 32 && r.operation == Create && r.choices == [] && Binding(r).None?
    ensures |ops| == 3 && Registers(ops, 0)
    ensures Life(ops, 0, 2).Some? && Life(ops, 0, 2).value.state == Approved([])
    ensures Life(ops, 0, 3).Some? && Life(ops, 0, 3).value.state == Deferred
  {
    ops := [Op.Register(r, 0), Op.Approve(r.nonce, None, true, SECOND), Op.Defer(r.nonce, 3 * SECOND)];
    assert PendingAt(ops, 0) == [];
    var c := Ceremony(r, 0, 0, AwaitingHuman);
    assert Life(ops, 0, 1) == Some(c);
    assert Becomes(c, ops[1]) == Some(c.(state := Approved([])));
    assert Life(ops, 0, 2) == Becomes(c, ops[1]);
    assert Life(ops, 0, 3) == Becomes(c.(state := Approved([])), ops[2]);
  }

  // ----- deliveries -----

  lemma OnlyOneNamed(q: Pending, c: Ceremony, d: Ceremony)
    requires Sound(q) && c in q && d in q && c.request.nonce == d.request.nonce
    ensures c == d
  {
    var i :| 0 <= i < |q| && q[i] == c;
    var j :| 0 <= j < |q| && q[j] == d;
  }

  // A request to take is answered exactly when a ceremony of that nonce is
  // there, young, answered and the collector's to have.
  lemma TakeDeliversExactly(p: Pending, op: Op, e: Ceremony)
    requires Sound(p)
    ensures Step(p, op).1 == Delivered(e) <==>
            op.Take? && exists c :: c in p && Young(c, op.now) && e == Lapse(c, op.now) && Collectable(e, op.nonce, op.collector)
  {
    hide Expire;
    hide Sound;
    hide Lapse;
    if op.Take? {
      var q := Expire(p, op.now);
      ExpireKeepsSound(p, op.now);
      var found := FindCollectable(q, op.nonce, op.collector);
      if found.Some? {
        ExpireEntries(p, op.now, q[found.value]);
      }
      if c :| c in p && Young(c, op.now) && e == Lapse(c, op.now) && Collectable(e, op.nonce, op.collector) {
        ExpireEntries(p, op.now, e);
        OnlyOneNamed(q, e, q[found.value]);
      }
    }
  }

  // Request `k` hands over what is left of the registration at `i`.
  ghost predicate HandsOver(ops: seq<Op>, i: nat, k: nat, e: Ceremony)
    requires i < k < |ops|
  {
    && ops[k].Take? && Registers(ops, i) && Life(ops, i, k).Some?
    && var c := Life(ops, i, k).value;
       Young(c, ops[k].now) && e == Lapse(c, ops[k].now) && Collectable(e, ops[k].nonce, ops[k].collector)
  }

  // In every run, what is handed over is one registration, answered, still
  // pending, and its owner's if it has one; and such a one is handed over.
  lemma DeliveredExactly(ops: seq<Op>, k: nat, e: Ceremony)
    requires k < |ops|
    ensures OutcomeAt(ops, k) == Delivered(e) <==> exists i :: 0 <= i < k && HandsOver(ops, i, k, e)
  {
    hide Step;
    hide PendingAt;
    hide Lapse;
    hide Collectable;
    hide Young;
    var p := PendingAt(ops, k);
    ReachableIsSound(ops, k);
    TakeDeliversExactly(p, ops[k], e);
    if OutcomeAt(ops, k) == Delivered(e) {
      var c :| c in p && Young(c, ops[k].now) && e == Lapse(c, ops[k].now) && Collectable(e, ops[k].nonce, ops[k].collector);
      DeskIsItsLives(ops, k, c);
      var i :| 0 <= i < k && Registers(ops, i) && Life(ops, i, k) == Some(c);
      assert HandsOver(ops, i, k, e);
    }
    if i :| 0 <= i < k && HandsOver(ops, i, k, e) {
      DeskIsItsLives(ops, k, Life(ops, i, k).value);
    }
  }

  predicate ApprovesAt(ops: seq<Op>, m: nat, nonce: Utf8)
    requires m < |ops|
  {
    ops[m].Approve? && ops[m].nonce == nonce && OutcomeAt(ops, m) == Done
  }

  lemma ApproveOutcome(p: Pending, op: Op, c: Ceremony)
    requires Sound(p) && op.Approve? && c in p && c.Named(op.nonce) && Young(c, op.now)
    ensures Step(p, op).1 == Done <==> OnScreen(c, op.now) && Grants(op, c.request)
  {
    hide Expire;
    var q := Expire(p, op.now);
    ExpireKeepsSound(p, op.now);
    ExpireEntries(p, op.now, Lapse(c, op.now));
    FindIs(q, Lapse(c, op.now), op.nonce);
  }

  // The approvals of a pending registration that succeed are those in time,
  // with a true proof and a choice it recorded, and before any other answer.
  lemma ApprovesExactly(ops: seq<Op>, i: nat, m: nat)
    requires i < m < |ops| && Registers(ops, i) && Life(ops, i, m + 1).Some?
    ensures ApprovesAt(ops, m, ops[i].request.nonce)
       <==> Unanswered(ops, i, m) && !Late(ops[m], ops[i].now) && Grants(ops[m], ops[i].request)
  {
    hide Step;
    hide PendingAt;
    hide Unanswered;
    hide Suitable;
    LifeWasThere(ops, i, m, m + 1);
    var c := Life(ops, i, m).value;
    LifeStands(ops, i, m);
    DeskIsItsLives(ops, m, c);
    ReachableIsSound(ops, m);
    if ops[m].Approve? && ops[m].nonce == c.request.nonce {
      ApproveOutcome(PendingAt(ops, m), ops[m], c);
    }
  }

  // An answer handed out as approved was approved by exactly one request, in
  // time, with a true proof, after fewer than three wrong ones, naming a choice
  // frozen at registration; and nothing has turned it away.
  lemma ApprovedDelivery(ops: seq<Op>, k: nat) returns (i: nat, j: nat)
    requires k < |ops| && OutcomeAt(ops, k).Delivered? && OutcomeAt(ops, k).ceremony.state.Approved?
    ensures i < j < k
    ensures var e := OutcomeAt(ops, k).ceremony;
            && HandsOver(ops, i, k, e) && e.request == ops[i].request && e.registeredAt == ops[i].now
            && Grants(ops[j], e.request) && e.state == Granted(ops[j], e.request)
            && Unanswered(ops, i, j) && ops[j].now < e.registeredAt + CEREMONY_TTL
            && forall m :: i < m < k ==>
                 (ApprovesAt(ops, m, e.request.nonce) <==> m == j) && !TurnsAway(ops[m], e.request.nonce)
  {
    hide OutcomeAt;
    hide Life;
    hide Suitable;
    hide Wrongs;
    hide Becomes;
    var e := OutcomeAt(ops, k).ceremony;
    DeliveredExactly(ops, k, e);
    var i' :| 0 <= i' < k && HandsOver(ops, i', k, e);
    i := i';
    LifeStands(ops, i, k);
    StateIsLastAnswer(ops, i, k, e.state);
    var j' :| i < j' < k && AnswersLast(ops, i, j', k, e.state);
    j := j';
    forall m | i < m < k
      ensures (ApprovesAt(ops, m, e.request.nonce) <==> m == j) && !TurnsAway(ops[m], e.request.nonce)
    {
      LifeWasThere(ops, i, m + 1, k);
      ApprovesExactly(ops, i, m);
      assert m > j ==> AnswerAt(ops, i, m) == None;
      if m > j {
        AnsweredStays(ops, i, j, m);
      }
    }
  }

  lemma AnsweredStays(ops: seq<Op>, i: nat, j: nat, m: nat)
    requires i < j < m <= |ops| && ops[i].Register? && Grants(ops[j], ops[i].request)
    ensures !Unanswered(ops, i, m)
  {
  }

  // No registration is delivered twice: between two deliveries under one nonce
  // it was registered again.
  lemma DeliveredAtMostOnce(ops: seq<Op>, k1: nat, k2: nat, nonce: Utf8) returns (i: nat)
    requires k1 < k2 < |ops|
    requires OutcomeAt(ops, k1).Delivered? && OutcomeAt(ops, k1).ceremony.Named(nonce)
    requires OutcomeAt(ops, k2).Delivered? && OutcomeAt(ops, k2).ceremony.Named(nonce)
    ensures k1 < i < k2 && Registers(ops, i) && ops[i].request.nonce == nonce
  {
    hide OutcomeAt;
    hide Life;
    hide PendingAt;
    hide Young;
    var d, e := OutcomeAt(ops, k1).ceremony, OutcomeAt(ops, k2).ceremony;
    DeliveredExactly(ops, k1, d);
    DeliveredExactly(ops, k2, e);
    var h :| 0 <= h < k1 && HandsOver(ops, h, k1, d);
    var i' :| 0 <= i' < k2 && HandsOver(ops, i', k2, e);
    i := i';
    LifeStands(ops, i, k2);
    if i < k1 {
      LifeWasThere(ops, i, k1 + 1, k2);
      TakenIsGone(ops, h, i, k1, d);
    }
  }

  lemma TakenIsGone(ops: seq<Op>, h: nat, i: nat, k: nat, d: Ceremony)
    requires h < k < |ops| && HandsOver(ops, h, k, d)
    requires i < k && Registers(ops, i) && ops[i].request.nonce == d.request.nonce
    ensures Life(ops, i, k + 1).None?
  {
    hide PendingAt;
    hide OutcomeAt;
    if Life(ops, i, k).Some? {
      var b, c := Life(ops, h, k).value, Life(ops, i, k).value;
      LifeIsFrozen(ops, h, k);
      LifeIsFrozen(ops, i, k);
      DeskIsItsLives(ops, k, b);
      DeskIsItsLives(ops, k, c);
      ReachableIsSound(ops, k);
      OnlyOneNamed(PendingAt(ops, k), b, c);
    }
  }

  lemma NonceMustBeFree(p: Pending, op: Op, c: Ceremony)
    requires op.Register? && c in p && Young(c, op.now) && c.Named(op.request.nonce)
    ensures !Step(p, op).1.Registered?
  {
    hide Expire;
    var q := Expire(p, op.now);
    ExpireEntries(p, op.now, Lapse(c, op.now));
    var i :| 0 <= i < |q| && q[i] == Lapse(c, op.now);
    assert q[i].Named(op.request.nonce);
  }

  // Of one nonce, at most one registration is pending.
  lemma OneLifePerNonce(ops: seq<Op>, i: nat, j: nat, k: nat)
    requires i < j < k <= |ops| && Registers(ops, i) && Registers(ops, j)
    requires ops[i].request.nonce == ops[j].request.nonce
    ensures Life(ops, i, k).None?
  {
    hide Step;
    hide PendingAt;
    hide Young;
    if Life(ops, i, k).Some? {
      LifeWasThere(ops, i, j + 1, k);
      LifeWasThere(ops, i, j, j + 1);
      var c := Life(ops, i, j).value;
      LifeIsFrozen(ops, i, j);
      DeskIsItsLives(ops, j, c);
      NonceMustBeFree(PendingAt(ops, j), ops[j], c);
    }
  }
}
