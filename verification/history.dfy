/**
 Any sequence of the two store-changing service calls, and the invariants
 every such sequence keeps: one record per phone number, no record ever
 removed, invite codes generated once and never regenerated, auth codes
 never rewritten, and every redeemed code backed by some record's invite
 code (apart from the null and blank codes).
 */
module History {
  import opened Wrappers
  import opened Users
  import opened Services

  /** A request that may change the store, naming the user by phone number. */
  datatype Mutation =
    | AuthRequest(phone: string, generated: string)
    | ActivateRequest(phone: string, code: Option<string>)

  /**
   The store after one request. Redeeming a code for an unknown phone number
   or a code nobody hands out leaves the store as it was.
   */
  function Step(s: Store, m: Mutation): Store
  {
    match m
    case AuthRequest(phone, generated) => Authenticate(s, phone, generated).0
    case ActivateRequest(phone, code) =>
      if phone in s then
        match ActivateInviteCode(s, s[phone], code)
        case Ok((s', _)) => s'
        case Err(_) => s
      else s
  }

  /** The store after the requests of `ms`, in order. */
  function Run(s: Store, ms: seq<Mutation>): Store
    decreases |ms|
  {
    if ms == [] then s else Run(Step(s, ms[0]), ms[1..])
  }

  /** A redeemed code is null, blank, or the invite code of some record. */
  predicate Backed(s: Store, code: Option<string>)
  {
    code == None || code == BlankCode || InviteExists(s, code)
  }

  predicate Invariant(s: Store)
  {
    && WellFormed(s)
    && forall p :: p in s ==> Backed(s, s[p].activatedInviteCode)
  }

  /** One request keeps the records, their invite codes once set, and their auth codes. */
  lemma StepKeepsRecords(s: Store, m: Mutation)
    requires WellFormed(s)
    ensures s.Keys <= Step(s, m).Keys
    ensures forall p :: p in s && s[p].inviteCode != BlankCode ==>
      Step(s, m)[p].inviteCode == s[p].inviteCode
    ensures forall p :: p in s ==> Step(s, m)[p].authCode == s[p].authCode
  {
  }

  /** One request keeps the invariant. */
  lemma StepKeepsInvariant(s: Store, m: Mutation)
    requires Invariant(s)
    ensures Invariant(Step(s, m))
  {
  }

  /** Every sequence of requests keeps the invariant. */
  lemma {:induction false} RunKeepsInvariant(s: Store, ms: seq<Mutation>)
    requires Invariant(s)
    ensures Invariant(Run(s, ms))
    decreases |ms|
  {
    if ms != [] {
      StepKeepsInvariant(s, ms[0]);
      RunKeepsInvariant(Step(s, ms[0]), ms[1..]);
    }
  }

  /**
   Over every sequence of requests no record is removed, an invite code
   once generated is never regenerated, and no auth code is rewritten.
   */
  lemma {:induction false} RunKeepsRecords(s: Store, ms: seq<Mutation>)
    requires WellFormed(s)
    ensures s.Keys <= Run(s, ms).Keys
    ensures forall p :: p in s && s[p].inviteCode != BlankCode ==>
      Run(s, ms)[p].inviteCode == s[p].inviteCode
    ensures forall p :: p in s ==> Run(s, ms)[p].authCode == s[p].authCode
    decreases |ms|
  {
    if ms != [] {
      var s1 := Step(s, ms[0]);
      StepKeepsRecords(s, ms[0]);
      StepKeepsWellFormed(s, ms[0]);
      RunKeepsRecords(s1, ms[1..]);
    }
  }

  /** One request keeps every record under its own phone number. */
  lemma StepKeepsWellFormed(s: Store, m: Mutation)
    requires WellFormed(s)
    ensures WellFormed(Step(s, m))
  {
  }

  /**
   After `AuthRequest(p, g)` with a non-empty `g`, the record for `p`
   carries a non-blank invite code for the rest of any sequence of requests:
   later authentications of `p` return the same code.
   */
  lemma {:induction false} AuthenticatedCodeIsFinal(s: Store, phone: string, g: string, ms: seq<Mutation>)
    requires WellFormed(s) && g != ""
    ensures var s1 := Step(s, AuthRequest(phone, g));
      && phone in Run(s1, ms)
      && Run(s1, ms)[phone].inviteCode == s1[phone].inviteCode != BlankCode
  {
    var s1 := Step(s, AuthRequest(phone, g));
    StepKeepsWellFormed(s, AuthRequest(phone, g));
    RunKeepsRecords(s1, ms);
  }

  /**
   A record whose invite code is null, not blank, is never given one: the
   service only fills an invite code equal to `''`, so over any sequence of
   requests the code stays null.
   */
  lemma {:induction false} NullInviteNeverGenerated(s: Store, phone: string, ms: seq<Mutation>)
    requires WellFormed(s)
    requires phone in s && s[phone].inviteCode == None
    ensures phone in Run(s, ms) && Run(s, ms)[phone].inviteCode == None
  {
    RunKeepsRecords(s, ms);
  }
}
