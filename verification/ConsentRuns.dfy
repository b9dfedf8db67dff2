// What the consent desk promises over whole runs.
module ConsentRuns {
  import opened Wrappers
  import opened Bytes
  import opened ConsentDesk

  // ----- runs -----

  function PendingAt(ops: seq<Op>, k: nat): Pending
    requires k <= |ops|
  {
    if k == 0 then [] else Step(PendingAt(ops, k - 1), ops[k - 1]).0
  }

  function OutcomeAt(ops: seq<Op>, k: nat): Outcome
    requires k < |ops|
  {
    Step(PendingAt(ops, k), ops[k]).1
  }

  // ----- the state invariant -----

  ghost predicate Sound(p: Pending) {
    && |p| <= 8
    && (forall i, j :: 0 <= i < j < |p| ==> p[i].request.nonce != p[j].request.nonce)
    && (forall i :: 0 <= i < |p| && p[i].state == AwaitingHuman ==> p[i].attempts < 3)
  }

  // What expiry leaves: the young, with the overdue among them refused.
  lemma {:induction false} ExpireEntries(p: Pending, now: Time, d: Ceremony)
    ensures d in Expire(p, now) <==> exists c :: c in p && Young(c, now) && d == Lapse(c, now)
  {
    if p != [] {
      var c, rest := p[|p| - 1], p[..|p| - 1];
      ExpireEntries(rest, now, d);
      assert p == rest + [c];
    }
  }

  lemma {:induction false} ExpireKeepsSound(p: Pending, now: Time)
    requires Sound(p)
    ensures Sound(Expire(p, now)) && |Expire(p, now)| <= |p|
  {
    if p != [] {
      var c, rest := p[|p| - 1], p[..|p| - 1];
      ExpireKeepsSound(rest, now);
      var q := Expire(rest, now);
      forall i | 0 <= i < |q| ensures q[i].request.nonce != c.request.nonce {
        ExpireEntries(rest, now, q[i]);
      }
    }
  }

  lemma AwaitingHasAttempts(p: Pending, c: Ceremony)
    requires Sound(p) && c in p
    ensures c.state == AwaitingHuman ==> c.attempts < MAX_PROOF_ATTEMPTS
  {
    var i :| 0 <= i < |p| && p[i] == c;
  }

  lemma ServeKeepsSound(q: Pending, op: Op)
    requires Sound(q) && !op.Clear?
    ensures Sound(Serve(q, op).0)
  {
    hide Sound;
    match op
    case Register(r, now) =>
      if Objection(q, r).None? { AppendKeepsSound(q, Ceremony(r, now, 0, AwaitingHuman)); }
    case Approve(nonce, credential, proofOk, _) =>
      if i :| Find(q, nonce) == Some(i) {
        if q[i].state == AwaitingHuman { AwaitingHasAttempts(q, q[i]); }
        EditKeepsSound(q, i, Answered(q[i], credential, proofOk).0);
      }
    case Refuse(nonce, reason, _) =>
      if i :| Find(q, nonce) == Some(i) { EditKeepsSound(q, i, q[i].(state := Refused(reason))); }
    case Defer(nonce, _) =>
      if i :| Find(q, nonce) == Some(i) { EditKeepsSound(q, i, q[i].(state := Deferred)); }
    case Take(nonce, collector, _) =>
      if i :| FindCollectable(q, nonce, collector) == Some(i) { RemoveKeepsSound(q, i); }
  }

  lemma AppendKeepsSound(q: Pending, e: Ceremony)
    requires Sound(q) && |q| < MAX_PENDING && e.attempts < MAX_PROOF_ATTEMPTS
    requires forall i :: 0 <= i < |q| ==> !q[i].Named(e.request.nonce)
    ensures Sound(q + [e])
  {
  }

  lemma RemoveKeepsSound(q: Pending, i: nat)
    requires Sound(q) && i < |q|
    ensures Sound(q[..i] + q[i + 1..])
  {
  }

  lemma EditKeepsSound(q: Pending, i: nat, e: Ceremony)
    requires Sound(q) && i < |q| && e.request == q[i].request
    requires e.state == AwaitingHuman ==> e.attempts < MAX_PROOF_ATTEMPTS
    ensures Sound(q[i := e])
  {
  }

  lemma StepKeepsSound(p: Pending, op: Op)
    requires Sound(p)
    ensures Sound(Step(p, op).0)
  {
    hide Serve;
    hide Expire;
    if !op.Clear? {
      ExpireKeepsSound(p, op.now);
      ServeKeepsSound(Expire(p, op.now), op);
    }
  }

  lemma {:induction false} ReachableIsSound(ops: seq<Op>, k: nat)
    requires k <= |ops|
    ensures Sound(PendingAt(ops, k))
  {
    if k > 0 {
      ReachableIsSound(ops, k - 1);
      StepKeepsSound(PendingAt(ops, k - 1), ops[k - 1]);
    }
  }

  // ----- on screen exactly when approvable -----

  predicate Suitable(r: Request, credential: Option<seq<byte>>) {
    match credential
    case Some(id) => exists i :: 0 <= i < |r.choices| && r.choices[i].credentialId == id
    case None => |r.choices| <= 1
  }

  lemma {:induction false} SummariesShow(p: Pending, now: Time, s: Summary)
    ensures s in Summaries(p, now) <==> exists c :: c in p && OnScreen(c, now) && s == Summarise(c)
  {
    if p != [] {
      var c, rest := p[|p| - 1], p[..|p| - 1];
      SummariesShow(rest, now, s);
      assert p == rest + [c];
    }
  }

  lemma FindIs(p: Pending, c: Ceremony, nonce: Utf8)
    requires Sound(p) && c in p && c.Named(nonce)
    ensures Find(p, nonce).Some? && p[Find(p, nonce).value] == c
  {
    var i :| 0 <= i < |p| && p[i] == c;
    assert p[i].Named(nonce);
  }

  lemma ApproveSucceedsExactly(p: Pending, nonce: Utf8, credential: Option<seq<byte>>, now: Time)
    requires Sound(p)
    ensures Step(p, Approve(nonce, credential, true, now)).1 == Done
       <==> exists c :: c in p && c.Named(nonce) && OnScreen(c, now) && Suitable(c.request, credential)
  {
    hide Expire;
    var q := Expire(p, now);
    ExpireKeepsSound(p, now);
    if c :| c in p && c.Named(nonce) && OnScreen(c, now) && Suitable(c.request, credential) {
      ExpireEntries(p, now, c);
      FindIs(q, c, nonce);
    }
    var found := Find(q, nonce);
    if found.Some? {
      ExpireEntries(p, now, q[found.value]);
    }
  }

  // What the person sees is what they can approve, no more and no less.
  lemma OnScreenExactlyWhenApprovable(p: Pending, nonce: Utf8, now: Time)
    requires Sound(p)
    ensures (exists s :: s in Summaries(p, now) && s.nonce == nonce)
       <==> exists credential :: Step(p, Approve(nonce, credential, true, now)).1 == Done
  {
    if s :| s in Summaries(p, now) && s.nonce == nonce {
      SummariesShow(p, now, s);
      var c :| c in p && OnScreen(c, now) && s == Summarise(c);
      var credential := if c.request.choices == [] then None else Some(c.request.choices[0].credentialId);
      assert Suitable(c.request, credential);
      ApproveSucceedsExactly(p, nonce, credential, now);
    }
    if credential :| Step(p, Approve(nonce, credential, true, now)).1 == Done {
      ApproveSucceedsExactly(p, nonce, credential, now);
      var c :| c in p && c.Named(nonce) && OnScreen(c, now) && Suitable(c.request, credential);
      SummariesShow(p, now, Summarise(c));
    }
  }
}
