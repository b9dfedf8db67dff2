// What the desk answers to each request, told from what is pending, and what
// the person is shown.
module ConsentAnswers {
  import opened Wrappers
  import opened Bytes
  import opened ConsentDesk
  import opened ConsentRuns
  import opened ConsentLives

  // ----- registering -----

  // Bound once: by an origin and a challenge, or by a hash of 32 bytes.
  ghost predicate BoundOnce(r: Request) {
    if r.clientDataHash.Some? then |r.clientDataHash.value| == 32 && r.origin == [] && r.challenge == []
    else r.origin != [] && r.challenge != []
  }

  ghost predicate NonceTaken(p: Pending, nonce: Utf8, now: Time) {
    exists c :: c in p && Young(c, now) && c.request.nonce == nonce
  }

  lemma NamedAfterExpiry(p: Pending, nonce: Utf8, now: Time)
    ensures Find(Expire(p, now), nonce).Some? <==> NonceTaken(p, nonce, now)
  {
    hide Young;
    var q := Expire(p, now);
    if i :| Find(q, nonce) == Some(i) {
      assert q[i] in q;
      ExpireEntries(p, now, q[i]);
    }
    if c :| c in p && Young(c, now) && c.request.nonce == nonce {
      ExpireEntries(p, now, Lapse(c, now));
      var j :| 0 <= j < |q| && q[j] == Lapse(c, now);
      assert q[j].Named(nonce);
    }
  }

  // A request is registered exactly when there is room, its nonce is long and
  // unused, it has something to sign with and it is bound once; and what it is
  // refused for is so.
  lemma RegistersExactly(p: Pending, r: Request, now: Time)
    ensures var out, room := Step(p, Op.Register(r, now)).1, |Expire(p, now)|;
            && (out == Registered(r.nonce) <==>
                  room < 8 && |r.nonce| >= 32 && !NonceTaken(p, r.nonce, now)
                  && (r.operation == Create || r.choices != []) && BoundOnce(r))
            && (out == Registered(r.nonce) || out.Failed?)
            && (out == Failed(TooManyWaiting) <==> room >= 8)
            && (out == Failed(NonceTooShort) ==> |r.nonce| < 32)
            && (out == Failed(NonceInUse) ==> NonceTaken(p, r.nonce, now))
            && (out == Failed(NoCredential) ==> r.operation == Assert && r.choices == [])
            && (out == Failed(HashNot32Bytes) ==> r.clientDataHash.Some? && |r.clientDataHash.value| != 32)
            && (out == Failed(HashWithOrigin) ==> r.clientDataHash.Some? && (r.origin != [] || r.challenge != []))
            && (out == Failed(NoBinding) ==> r.clientDataHash.None? && (r.origin == [] || r.challenge == []))
            && (out.Failed? ==> out.why in {TooManyWaiting, NonceTooShort, NonceInUse, NoCredential,
                                            HashNot32Bytes, HashWithOrigin, NoBinding})
  {
    hide Expire;
    hide Find;
    hide NonceTaken;
    NamedAfterExpiry(p, r.nonce, now);
  }

  // ----- answering -----

  // What an approval is answered, out of the pending ceremony it names.
  lemma ApproveAnswers(p: Pending, op: Op, c: Ceremony)
    requires Sound(p) && op.Approve? && c in p && Young(c, op.now) && c.request.nonce == op.nonce
    ensures var out, open := Step(p, op).1, OnScreen(c, op.now);
            && (out == Failed(AlreadyAnswered) <==> !open)
            && (out == Failed(WrongPassphrase) <==> open && !op.proofOk && c.attempts < 2)
            && (out == Failed(WrongPassphraseRefused) <==> open && !op.proofOk && c.attempts == 2)
            && (out == Failed(NotAChoice) <==>
                  open && op.proofOk && op.credential.Some?
                  && forall choice :: choice in c.request.choices ==> choice.credentialId != op.credential.value)
            && (out == Failed(MustNameOne) <==> open && op.proofOk && op.credential.None? && |c.request.choices| >= 2)
            && (out == Done || out.Failed?)
  {
    hide Expire;
    hide Sound;
    var q := Expire(p, op.now);
    ExpireKeepsSound(p, op.now);
    ExpireEntries(p, op.now, Lapse(c, op.now));
    FindIs(q, Lapse(c, op.now), op.nonce);
    if OnScreen(c, op.now) {
      AwaitingHasAttempts(p, c);
    }
    if op.credential.Some? {
      ChoicesAre(c.request.choices, op.credential.value);
    }
  }

  lemma ChoicesAre(choices: seq<Choice>, id: seq<byte>)
    ensures (exists i :: 0 <= i < |choices| && choices[i].credentialId == id) <==>
            !forall choice :: choice in choices ==> choice.credentialId != id
  {
  }

  // Nothing is waiting exactly when no pending ceremony of that nonce is left
  // after expiry; a refusal or a deferral of one that is left always succeeds.
  lemma AnswersWhenNamed(p: Pending, op: Op)
    requires op.Approve? || op.Refuse? || op.Defer?
    ensures var out := Step(p, op).1;
            && (out == Failed(NotWaiting) <==> !NonceTaken(p, op.nonce, op.now))
            && (!op.Approve? ==> out == if NonceTaken(p, op.nonce, op.now) then Done else Failed(NotWaiting))
  {
    hide Expire;
    hide NonceTaken;
    NamedAfterExpiry(p, op.nonce, op.now);
  }

  // ----- what is shown -----

  // Every line of the prompt is the request's own: the account is the user
  // named, or else the first choice.
  lemma SummaryTells(c: Ceremony)
    ensures var s, r := Summarise(c), c.request;
            && s.nonce == r.nonce && s.operation == r.operation && s.origin == r.origin
            && (s.viaSecurityKey <==> r.clientDataHash.Some?)
            && s.rpId == r.rpId && s.rpName == r.rpName && s.requester == r.requester
            && s.choices == r.choices && s.wantPrf == r.wantPrf
            && s.expiresAt == c.registeredAt + 120 * SECOND
            && (r.userName.Some? ==> s.account == r.userName)
            && (r.userName.None? && r.choices != [] ==> s.account == Some(r.choices[0].shown))
            && (r.userName.None? && r.choices == [] ==> s.account == None)
  {
  }

  lemma {:induction false} ExpireKeepsOrder(p: Pending, now: Time, a: nat, b: nat)
    requires a < b < |Expire(p, now)|
    ensures exists c, d :: 0 <= c < d < |p| && Young(p[c], now) && Young(p[d], now)
                           && Expire(p, now)[a] == Lapse(p[c], now) && Expire(p, now)[b] == Lapse(p[d], now)
    decreases |p|
  {
    hide Young;
    hide Lapse;
    var n := |p| - 1;
    var rest := Expire(p[..n], now);
    if b < |rest| {
      ExpireKeepsOrder(p[..n], now, a, b);
      var c, d :| 0 <= c < d < n && Young(p[..n][c], now) && Young(p[..n][d], now)
                  && rest[a] == Lapse(p[..n][c], now) && rest[b] == Lapse(p[..n][d], now);
      assert p[c] == p[..n][c] && p[d] == p[..n][d];
    } else {
      assert rest[a] in rest;
      ExpireEntries(p[..n], now, rest[a]);
      var e :| e in p[..n] && Young(e, now) && rest[a] == Lapse(e, now);
      var c :| 0 <= c < n && p[..n][c] == e;
      assert p[c] == e;
    }
  }

  lemma ServeKeepsOrder(q: Pending, op: Op, a: nat, b: nat)
    requires !op.Clear? && Sound(q) && a < b < |Serve(q, op).0|
    ensures var r := Serve(q, op);
            || (b == |q| && NewFrom(r.0[b], op, r.1))
            || exists c, d :: 0 <= c < d < |q| && Served(q[c], op) == Some(r.0[a]) && Served(q[d], op) == Some(r.0[b])
  {
    var r := Serve(q, op).0;
    if op.Take? {
      var found := FindCollectable(q, op.nonce, op.collector);
      if found.Some? {
        var c, d := if a < found.value then a else a + 1, if b < found.value then b else b + 1;
        assert Served(q[c], op) == Some(r[a]) && Served(q[d], op) == Some(r[b]);
      } else {
        assert Served(q[a], op) == Some(r[a]) && Served(q[b], op) == Some(r[b]);
      }
    } else if b < |q| {
      EditedInPlace(q, op, a);
      EditedInPlace(q, op, b);
    }
  }

  lemma EditedInPlace(q: Pending, op: Op, a: nat)
    requires !op.Clear? && !op.Take? && Sound(q) && a < |q|
    ensures |Serve(q, op).0| >= |q| && Served(q[a], op) == Some(Serve(q, op).0[a])
  {
  }

  lemma StepKeepsOrder(p: Pending, op: Op, a: nat, b: nat)
    requires Sound(p) && a < b < |Step(p, op).0|
    ensures var r := Step(p, op);
            || NewFrom(r.0[b], op, r.1)
            || exists c, d :: 0 <= c < d < |p| && Becomes(p[c], op) == Some(r.0[a]) && Becomes(p[d], op) == Some(r.0[b])
  {
    hide Expire;
    hide Serve;
    hide Served;
    hide Young;
    hide Lapse;
    hide Sound;
    hide NewFrom;
    var q, r := Expire(p, op.now), Step(p, op);
    ExpireKeepsSound(p, op.now);
    ServeKeepsOrder(q, op, a, b);
    if !NewFrom(r.0[b], op, r.1) {
      var x, y :| 0 <= x < y < |q| && Served(q[x], op) == Some(r.0[a]) && Served(q[y], op) == Some(r.0[b]);
      ExpireKeepsOrder(p, op.now, x, y);
      var c, d :| 0 <= c < d < |p| && Young(p[c], op.now) && Young(p[d], op.now)
                  && q[x] == Lapse(p[c], op.now) && q[y] == Lapse(p[d], op.now);
      assert Becomes(p[c], op) == Some(r.0[a]) && Becomes(p[d], op) == Some(r.0[b]);
    }
  }

  // The desk keeps its ceremonies in the order in which they were registered.
  lemma {:induction false} DeskKeepsOrder(ops: seq<Op>, k: nat, a: nat, b: nat, i: nat, j: nat)
    requires k <= |ops| && a < b < |PendingAt(ops, k)|
    requires i < k && Registers(ops, i) && Life(ops, i, k) == Some(PendingAt(ops, k)[a])
    requires j < k && Registers(ops, j) && Life(ops, j, k) == Some(PendingAt(ops, k)[b])
    ensures i < j
    decreases k
  {
    hide Step;
    hide Becomes;
    hide Sound;
    var p, op, q := PendingAt(ops, k - 1), ops[k - 1], PendingAt(ops, k);
    ReachableIsSound(ops, k - 1);
    ReachableIsSound(ops, k);
    LifeIsFrozen(ops, i, k);
    LifeIsFrozen(ops, j, k);
    DifferentNonces(q, a, b);
    StepKeepsOrder(p, op, a, b);
    if NewFrom(q[b], op, OutcomeAt(ops, k - 1)) {
      if j < k - 1 {
        OneLifePerNonce(ops, j, k - 1, k);
      }
    } else {
      var c, d :| 0 <= c < d < |p| && Becomes(p[c], op) == Some(q[a]) && Becomes(p[d], op) == Some(q[b]);
      OldLife(ops, k, i, p[c], q[a]);
      OldLife(ops, k, j, p[d], q[b]);
      DeskKeepsOrder(ops, k - 1, c, d, i, j);
    }
  }

  lemma DifferentNonces(q: Pending, a: nat, b: nat)
    requires Sound(q) && a < b < |q|
    ensures q[a].request.nonce != q[b].request.nonce
  {
  }

  // What the last request made of a pending ceremony is not what it registered.
  lemma OldLife(ops: seq<Op>, k: nat, i: nat, c: Ceremony, d: Ceremony)
    requires i < k <= |ops| && Registers(ops, i) && Life(ops, i, k) == Some(d)
    requires c in PendingAt(ops, k - 1) && Becomes(c, ops[k - 1]) == Some(d)
    ensures i < k - 1 && Life(ops, i, k - 1) == Some(c)
  {
    hide Step;
    hide PendingAt;
    hide Sound;
    BecomesKeepsNonce(c, ops[k - 1]);
    LifeIsFrozen(ops, i, k);
    if i == k - 1 {
      NonceMustBeFree(PendingAt(ops, k - 1), ops[k - 1], c);
    } else {
      LifeIsFrozen(ops, i, k - 1);
      DeskIsItsLives(ops, k - 1, Life(ops, i, k - 1).value);
      ReachableIsSound(ops, k - 1);
      OnlyOneNamed(PendingAt(ops, k - 1), c, Life(ops, i, k - 1).value);
    }
  }

  lemma BecomesKeepsNonce(c: Ceremony, op: Op)
    requires Becomes(c, op).Some?
    ensures Becomes(c, op).value.request == c.request && !op.Clear? && Young(c, op.now)
  {
  }

  lemma {:induction false} SummariesKeepOrder(p: Pending, now: Time, x: nat, y: nat)
    requires x < y < |Summaries(p, now)|
    ensures exists a, b :: 0 <= a < b < |p| && Summaries(p, now)[x] == Summarise(p[a]) && Summaries(p, now)[y] == Summarise(p[b])
    decreases |p|
  {
    hide OnScreen;
    hide Summarise;
    var n := |p| - 1;
    var rest := Summaries(p[..n], now);
    if y < |rest| {
      SummariesKeepOrder(p[..n], now, x, y);
      var a, b :| 0 <= a < b < n && rest[x] == Summarise(p[..n][a]) && rest[y] == Summarise(p[..n][b]);
      assert p[a] == p[..n][a] && p[b] == p[..n][b];
    } else {
      assert rest[x] in rest;
      SummariesShow(p[..n], now, rest[x]);
      var c :| c in p[..n] && OnScreen(c, now) && rest[x] == Summarise(c);
      var a :| 0 <= a < n && p[..n][a] == c;
      assert p[a] == c;
    }
  }

  // What is shown is shown oldest first.
  lemma OldestFirst(ops: seq<Op>, k: nat, now: Time, x: nat, y: nat) returns (i: nat, j: nat)
    requires k <= |ops| && x < y < |Summaries(PendingAt(ops, k), now)|
    ensures i < j < k && Registers(ops, i) && Registers(ops, j)
    ensures var shown := Summaries(PendingAt(ops, k), now);
            shown[x].nonce == ops[i].request.nonce && shown[y].nonce == ops[j].request.nonce
  {
    hide Summaries;
    hide PendingAt;
    hide Life;
    var p := PendingAt(ops, k);
    SummariesKeepOrder(p, now, x, y);
    var a, b :| 0 <= a < b < |p| && Summaries(p, now)[x] == Summarise(p[a]) && Summaries(p, now)[y] == Summarise(p[b]);
    DeskIsItsLives(ops, k, p[a]);
    DeskIsItsLives(ops, k, p[b]);
    var i', j' :| 0 <= i' < k && Registers(ops, i') && Life(ops, i', k) == Some(p[a])
                  && 0 <= j' < k && Registers(ops, j') && Life(ops, j', k) == Some(p[b]);
    i, j := i', j';
    DeskKeepsOrder(ops, k, a, b, i, j);
    LifeIsFrozen(ops, i, k);
    LifeIsFrozen(ops, j, k);
  }
}
