// The consent desk of crates/blackbag-core/src/consent.rs: human approval for
// passkey ceremonies, as a state machine over pending ceremonies.
//
// Time is an integer number of nanoseconds and need not increase from one
// request to the next; whether a proof was right is an input.
module ConsentDesk {
  import opened Wrappers
  import opened Bytes

  type Utf8 = seq<byte>

  type Time = int

  const SECOND: int := 1_000_000_000
  const CEREMONY_TTL: int := 120 * SECOND
  const MAX_PENDING: nat := 8
  const MAX_PROOF_ATTEMPTS: nat := 3

  datatype Operation = Create | Assert

  datatype Choice = Choice(recordId: Utf8, credentialId: seq<byte>, shown: Utf8)

  // What is frozen at registration.
  datatype Request = Request(
    nonce: Utf8, operation: Operation, origin: Utf8, rpId: Utf8, rpName: Option<Utf8>,
    choices: seq<Choice>, challenge: Utf8, crossOrigin: bool,
    clientDataHash: Option<seq<byte>>, userHandle: Option<seq<byte>>,
    userName: Option<Utf8>, userDisplayName: Option<Utf8>, algorithms: seq<int>,
    wantPrf: bool, prfFirstSalt: Option<seq<byte>>, prfSecondSalt: Option<seq<byte>>,
    owner: Option<Utf8>, requester: Option<Utf8>)

  datatype State =
    | AwaitingHuman
    | Approved(credentialId: seq<byte>)
    | Refused(reason: string)
    | Deferred

  datatype Ceremony = Ceremony(request: Request, registeredAt: Time, attempts: nat, state: State) {
    function ExpiresAt(): Time {
      registeredAt + CEREMONY_TTL
    }

    predicate IsExpired(now: Time) {
      now >= ExpiresAt()
    }

    predicate Named(nonce: Utf8) {
      request.nonce == nonce
    }
  }

  datatype Refusal =
    | TooManyWaiting | NonceTooShort | NonceInUse | NoCredential
    | HashNot32Bytes | HashWithOrigin | NoBinding
    | NotWaiting | AlreadyAnswered | WrongPassphrase | WrongPassphraseRefused
    | NotAChoice | MustNameOne

  type Pending = seq<Ceremony>

  // ----- expiry -----

  function Lapse(c: Ceremony, now: Time): Ceremony {
    if c.state == AwaitingHuman && c.IsExpired(now)
    then c.(state := Refused("the request expired before it was answered"))
    else c
  }

  predicate Young(c: Ceremony, now: Time) {
    now < c.ExpiresAt() + CEREMONY_TTL
  }

  // Every unanswered ceremony past its deadline refused, every one a full
  // lifetime past its deadline dropped.
  function Expire(p: Pending, now: Time): Pending {
    if p == [] then []
    else var c := p[|p| - 1];
         Expire(p[..|p| - 1], now) + (if Young(c, now) then [Lapse(c, now)] else [])
  }

  // The first ceremony with this nonce.
  function Find(p: Pending, nonce: Utf8): (r: Option<nat>)
    ensures r.Some? ==> r.value < |p| && p[r.value].Named(nonce)
    ensures r.None? ==> forall i :: 0 <= i < |p| ==> !p[i].Named(nonce)
  {
    if p == [] then None
    else match Find(p[..|p| - 1], nonce)
         case Some(i) => Some(i)
         case None => if p[|p| - 1].Named(nonce) then Some(|p| - 1) else None
  }

  // ----- registration -----

  function Binding(r: Request): Option<Refusal> {
    match r.clientDataHash
    case Some(hash) =>
      if |hash| != 32 then Some(HashNot32Bytes)
      else if r.origin != [] || r.challenge != [] then Some(HashWithOrigin)
      else None
    case None =>
      if r.origin == [] || r.challenge == [] then Some(NoBinding) else None
  }

  function Objection(p: Pending, r: Request): Option<Refusal> {
    if |p| >= MAX_PENDING then Some(TooManyWaiting)
    else if |r.nonce| < 32 then Some(NonceTooShort)
    else if Find(p, r.nonce).Some? then Some(NonceInUse)
    else if r.operation == Assert && r.choices == [] then Some(NoCredential)
    else Binding(r)
  }

  // ----- approval -----

  // The credential an approval selects, out of those recorded and no others.
  function Chosen(r: Request, credential: Option<seq<byte>>): Result<seq<byte>, Refusal> {
    match credential
    case Some(id) =>
      if exists i :: 0 <= i < |r.choices| && r.choices[i].credentialId == id then Ok(id) else Err(NotAChoice)
    case None =>
      if |r.choices| == 0 then Ok([])
      else if |r.choices| == 1 then Ok(r.choices[0].credentialId)
      else Err(MustNameOne)
  }

  function Answered(c: Ceremony, credential: Option<seq<byte>>, proofOk: bool): (Ceremony, Option<Refusal>) {
    if c.state != AwaitingHuman then (c, Some(AlreadyAnswered))
    else if !proofOk then
      var d := c.(attempts := c.attempts + 1);
      if d.attempts >= MAX_PROOF_ATTEMPTS
      then (d.(state := Refused("too many wrong passphrases; the request was refused")), Some(WrongPassphraseRefused))
      else (d, Some(WrongPassphrase))
    else match Chosen(c.request, credential)
         case Err(why) => (c, Some(why))
         case Ok(id) => (c.(state := Approved(id)), None)
  }

  // ----- one request to the desk -----

  datatype Op =
    | Register(request: Request, now: Time)
    | Approve(nonce: Utf8, credential: Option<seq<byte>>, proofOk: bool, now: Time)
    | Refuse(nonce: Utf8, reason: string, now: Time)
    | Defer(nonce: Utf8, now: Time)
    | Take(nonce: Utf8, collector: Option<Utf8>, now: Time)
    | Clear

  datatype Outcome =
    | Registered(nonce: Utf8)
    | Done
    | Failed(why: Refusal)
    | Delivered(ceremony: Ceremony)
    | NothingToTake

  // Collectable: answered, and by its owner when it has one.
  predicate Collectable(c: Ceremony, nonce: Utf8, collector: Option<Utf8>) {
    && c.Named(nonce)
    && c.state != AwaitingHuman
    && (c.request.owner.None? || c.request.owner == collector)
  }

  function FindCollectable(p: Pending, nonce: Utf8, collector: Option<Utf8>): (r: Option<nat>)
    ensures r.Some? ==> r.value < |p| && Collectable(p[r.value], nonce, collector)
    ensures r.None? ==> forall i :: 0 <= i < |p| ==> !Collectable(p[i], nonce, collector)
  {
    if p == [] then None
    else match FindCollectable(p[..|p| - 1], nonce, collector)
         case Some(i) => Some(i)
         case None => if Collectable(p[|p| - 1], nonce, collector) then Some(|p| - 1) else None
  }

  function SetState(p: Pending, nonce: Utf8, state: State): (Pending, Outcome) {
    match Find(p, nonce)
    case None => (p, Failed(NotWaiting))
    case Some(i) => (p[i := p[i].(state := state)], Done)
  }

  // One request, once the desk has been expired.
  function Serve(q: Pending, op: Op): (Pending, Outcome)
    requires !op.Clear?
  {
    match op
    case Register(r, now) =>
      (match Objection(q, r)
       case Some(why) => (q, Failed(why))
       case None => (q + [Ceremony(r, now, 0, AwaitingHuman)], Registered(r.nonce)))
    case Approve(nonce, credential, proofOk, now) =>
      (match Find(q, nonce)
       case None => (q, Failed(NotWaiting))
       case Some(i) =>
         var (c, why) := Answered(q[i], credential, proofOk);
         (q[i := c], if why.Some? then Failed(why.value) else Done))
    case Refuse(nonce, reason, now) => SetState(q, nonce, Refused(reason))
    case Defer(nonce, now) => SetState(q, nonce, Deferred)
    case Take(nonce, collector, now) =>
      (match FindCollectable(q, nonce, collector)
       case None => (q, NothingToTake)
       case Some(i) => (q[..i] + q[i + 1..], Delivered(q[i])))
  }

  function Step(p: Pending, op: Op): (Pending, Outcome) {
    if op.Clear? then ([], Done) else Serve(Expire(p, op.now), op)
  }

  // ----- what the screen shows -----

  datatype Summary = Summary(
    nonce: Utf8, operation: Operation, origin: Utf8, viaSecurityKey: bool,
    rpId: Utf8, rpName: Option<Utf8>, account: Option<Utf8>, requester: Option<Utf8>,
    choices: seq<Choice>, wantPrf: bool, expiresAt: Time)

  function Summarise(c: Ceremony): Summary {
    var r := c.request;
    Summary(r.nonce, r.operation, r.origin, r.clientDataHash.Some?, r.rpId, r.rpName,
            if r.userName.Some? then r.userName
            else if r.choices != [] then Some(r.choices[0].shown) else None,
            r.requester, r.choices, r.wantPrf, c.ExpiresAt())
  }

  predicate OnScreen(c: Ceremony, now: Time) {
    c.state == AwaitingHuman && !c.IsExpired(now)
  }

  function Summaries(p: Pending, now: Time): seq<Summary> {
    if p == [] then []
    else var c := p[|p| - 1];
         Summaries(p[..|p| - 1], now) + (if OnScreen(c, now) then [Summarise(c)] else [])
  }

  // ----- the desk -----

  class Desk {
    var pending: Pending

    constructor ()
      ensures pending == []
    {
      pending := [];
    }

    method ExpireAll(now: Time)
      modifies this
      ensures pending == Expire(old(pending), now)
    {
      for i := 0 to |pending|
        invariant |pending| == |old(pending)|
        invariant forall j :: 0 <= j < i ==> pending[j] == Lapse(old(pending)[j], now)
        invariant forall j :: i <= j < |pending| ==> pending[j] == old(pending)[j]
      {
        if pending[i].state == AwaitingHuman && pending[i].IsExpired(now) {
          pending := pending[i := pending[i].(state := Refused("the request expired before it was answered"))];
        }
      }
      var kept: Pending := [];
      for i := 0 to |pending|
        invariant kept == Expire(old(pending)[..i], now)
      {
        assert old(pending)[..i + 1][..i] == old(pending)[..i];
        if now < pending[i].ExpiresAt() + CEREMONY_TTL {
          kept := kept + [pending[i]];
        }
      }
      assert old(pending)[..|pending|] == old(pending);
      pending := kept;
    }

    method IndexOf(nonce: Utf8) returns (found: Option<nat>)
      ensures found == Find(pending, nonce)
    {
      for i := 0 to |pending|
        invariant Find(pending[..i], nonce) == None
      {
        assert pending[..i + 1][..i] == pending[..i];
        if pending[i].Named(nonce) {
          FindExtends(pending, nonce, i + 1);
          return Some(i);
        }
      }
      assert pending[..|pending|] == pending;
      found := None;
    }

    method Register(request: Request, now: Time) returns (r: Result<Utf8, Refusal>)
      modifies this
      ensures (pending, match r case Ok(n) => Registered(n) case Err(why) => Failed(why))
           == Step(old(pending), Op.Register(request, now))
    {
      ExpireAll(now);
      if |pending| >= MAX_PENDING {
        return Err(TooManyWaiting);
      }
      if |request.nonce| < 32 {
        return Err(NonceTooShort);
      }
      var twin := IndexOf(request.nonce);
      if twin.Some? {
        return Err(NonceInUse);
      }
      if request.operation == Assert && request.choices == [] {
        return Err(NoCredential);
      }
      match request.clientDataHash {
        case Some(hash) =>
          if |hash| != 32 {
            return Err(HashNot32Bytes);
          }
          if request.origin != [] || request.challenge != [] {
            return Err(HashWithOrigin);
          }
        case None =>
          if request.origin == [] || request.challenge == [] {
            return Err(NoBinding);
          }
      }
      pending := pending + [Ceremony(request, now, 0, AwaitingHuman)];
      r := Ok(request.nonce);
    }

    method Approve(nonce: Utf8, credential: Option<seq<byte>>, proofOk: bool, now: Time)
      returns (r: Result<(), Refusal>)
      modifies this
      ensures (pending, match r case Ok(_) => Done case Err(why) => Failed(why))
           == Step(old(pending), Op.Approve(nonce, credential, proofOk, now))
    {
      ExpireAll(now);
      var found := IndexOf(nonce);
      if found.None? {
        return Err(NotWaiting);
      }
      var i := found.value;
      ghost var q := pending;
      var ceremony := pending[i];
      assert q[i := ceremony] == q;
      if ceremony.state != AwaitingHuman {
        return Err(AlreadyAnswered);
      }
      if !proofOk {
        ceremony := ceremony.(attempts := ceremony.attempts + 1);
        pending := pending[i := ceremony];
        if ceremony.attempts >= MAX_PROOF_ATTEMPTS {
          ceremony := ceremony.(state := Refused("too many wrong passphrases; the request was refused"));
          pending := pending[i := ceremony];
          assert pending == q[i := ceremony];
          return Err(WrongPassphraseRefused);
        }
        return Err(WrongPassphrase);
      }
      var chosen := Chosen(ceremony.request, credential);
      if chosen.Err? {
        return Err(chosen.error);
      }
      pending := pending[i := ceremony.(state := Approved(chosen.value))];
      r := Ok(());
    }

    method SetStateOf(nonce: Utf8, state: State, now: Time) returns (r: Result<(), Refusal>)
      modifies this
      ensures (pending, match r case Ok(_) => Done case Err(why) => Failed(why))
           == SetState(Expire(old(pending), now), nonce, state)
    {
      ExpireAll(now);
      var found := IndexOf(nonce);
      if found.None? {
        return Err(NotWaiting);
      }
      pending := pending[found.value := pending[found.value].(state := state)];
      r := Ok(());
    }

    method Refuse(nonce: Utf8, reason: string, now: Time) returns (r: Result<(), Refusal>)
      modifies this
      ensures (pending, match r case Ok(_) => Done case Err(why) => Failed(why))
           == Step(old(pending), Op.Refuse(nonce, reason, now))
    {
      r := SetStateOf(nonce, Refused(reason), now);
    }

    method Defer(nonce: Utf8, now: Time) returns (r: Result<(), Refusal>)
      modifies this
      ensures (pending, match r case Ok(_) => Done case Err(why) => Failed(why))
           == Step(old(pending), Op.Defer(nonce, now))
    {
      r := SetStateOf(nonce, Deferred, now);
    }

    method TakeAnswered(nonce: Utf8, collector: Option<Utf8>, now: Time) returns (r: Option<Ceremony>)
      modifies this
      ensures (pending, match r case Some(c) => Delivered(c) case None => NothingToTake)
           == Step(old(pending), Op.Take(nonce, collector, now))
    {
      hide Expire;
      ExpireAll(now);
      ghost var q := pending;
      for i := 0 to |pending|
        invariant pending == q && FindCollectable(pending[..i], nonce, collector) == None
      {
        assert pending[..i + 1][..i] == pending[..i];
        if Collectable(pending[i], nonce, collector) {
          FindCollectableExtends(pending, nonce, collector, i + 1);
          r := Some(pending[i]);
          pending := pending[..i] + pending[i + 1..];
          return;
        }
      }
      assert pending[..|pending|] == pending;
      r := None;
    }

    method CurrentSummaries(now: Time) returns (r: seq<Summary>)
      ensures r == Summaries(pending, now)
    {
      r := [];
      for i := 0 to |pending|
        invariant r == Summaries(pending[..i], now)
      {
        assert pending[..i + 1][..i] == pending[..i];
        if pending[i].state == AwaitingHuman && !pending[i].IsExpired(now) {
          r := r + [Summarise(pending[i])];
        }
      }
      assert pending[..|pending|] == pending;
    }

    method ClearAll()
      modifies this
      ensures (pending, Done) == Step(old(pending), Clear)
    {
      pending := [];
    }
  }

  lemma {:induction false} FindExtends(p: Pending, nonce: Utf8, n: nat)
    requires n <= |p| && Find(p[..n], nonce).Some?
    ensures Find(p, nonce) == Find(p[..n], nonce)
    decreases |p|
  {
    if n < |p| {
      assert p[..|p| - 1][..n] == p[..n];
      FindExtends(p[..|p| - 1], nonce, n);
    } else {
      assert p[..n] == p;
    }
  }

  lemma {:induction false} FindCollectableExtends(p: Pending, nonce: Utf8, collector: Option<Utf8>, n: nat)
    requires n <= |p| && FindCollectable(p[..n], nonce, collector).Some?
    ensures FindCollectable(p, nonce, collector) == FindCollectable(p[..n], nonce, collector)
    decreases |p|
  {
    if n < |p| {
      assert p[..|p| - 1][..n] == p[..n];
      FindCollectableExtends(p[..|p| - 1], nonce, collector, n);
    } else {
      assert p[..n] == p;
    }
  }
}
