/**
 Properties that relate several calls of the referral service, or a call
 to the store-wide notions of well-formedness, invite ownership and downline.
 */
module ServiceProperties {
  import opened Wrappers
  import opened Users
  import opened Services

  /** `u` is the record the store holds under `u`'s phone number. */
  predicate Stored(s: Store, u: User)
  {
    u.phone in s && s[u.phone] == u
  }

  /** Once a non-empty code has been generated, authenticating again changes nothing. */
  lemma AuthenticateIdempotent(s: Store, phone: string, g1: string, g2: string)
    requires g1 != ""
    ensures var (s1, u1) := Authenticate(s, phone, g1);
      Authenticate(s1, phone, g2) == (s1, u1)
  {
  }

  /**
   If the generator ever produced the empty string the record would stay
   blank, and the next authentication would overwrite its invite code.
   */
  lemma AuthenticateEmptyCodeNotIdempotent(s: Store, phone: string, g2: string)
    requires phone !in s && g2 != ""
    ensures var (s1, u1) := Authenticate(s, phone, "");
      Authenticate(s1, phone, g2).1.inviteCode != u1.inviteCode
  {
  }

  /** Authentication keeps every record under its own phone number. */
  lemma AuthenticateKeepsWellFormed(s: Store, phone: string, g: string)
    requires WellFormed(s)
    ensures WellFormed(Authenticate(s, phone, g).0)
    ensures Stored(Authenticate(s, phone, g).0, Authenticate(s, phone, g).1)
  {
  }

  /**
   Authentication never writes an auth code, so whether a candidate code
   verifies is the same before and after it.
   */
  lemma AuthenticateKeepsVerification(s: Store, phone: string, g: string, code: Option<string>)
    requires phone in s
    ensures VerifyAuthCode(Authenticate(s, phone, g).1, code).Ok?
        <==> VerifyAuthCode(s[phone], code).Ok?
  {
  }

  /**
   Authentication leaves every downline alone, except that a new record
   (whose redeemed code is null) joins the downline of the null code.
   */
  lemma AuthenticateDownline(s: Store, phone: string, g: string, code: Option<string>)
    ensures Downline(Authenticate(s, phone, g).0, code)
         == Downline(s, code) + (if phone !in s && code == None then {phone} else {})
  {
  }

  /** A user can always redeem the user's own invite code. */
  lemma ActivateSelfReferral(s: Store, u: User)
    requires Stored(s, u)
    ensures ActivateInviteCode(s, u, u.inviteCode).Ok?
  {
  }

  /** Redeeming a code keeps every invite code of the store, so it never invalidates one. */
  lemma ActivateKeepsInviteCodes(s: Store, u: User, code: Option<string>, c: Option<string>)
    requires Stored(s, u)
    requires ActivateInviteCode(s, u, code).Ok?
    ensures var s' := ActivateInviteCode(s, u, code).value.0;
      && s'.Keys == s.Keys
      && (forall q :: q in s ==> s'[q].inviteCode == s[q].inviteCode)
      && (InviteExists(s', c) <==> InviteExists(s, c))
  {
  }

  /**
   A second redemption is not refused: it replaces the first, and the store
   ends as if only the second had happened.
   */
  lemma ActivateOverwrites(s: Store, u: User, c1: Option<string>, c2: Option<string>)
    requires Stored(s, u)
    requires InviteExists(s, c1) && InviteExists(s, c2)
    ensures ActivateInviteCode(s, u, c1).Ok?
    ensures var (s1, u1) := ActivateInviteCode(s, u, c1).value;
      var r2 := ActivateInviteCode(s1, u1, c2);
      && r2.Ok?
      && r2.value.1.activatedInviteCode == c2
      && r2.value == ActivateInviteCode(s, u, c2).value
  {
    ActivateKeepsInviteCodes(s, u, c1, c2);
    var (s1, u1) := ActivateInviteCode(s, u, c1).value;
    var u2 := u.(activatedInviteCode := c2);
    assert u1.(activatedInviteCode := c2) == u2;
    assert s1[u.phone := u2] == s[u.phone := u2];
  }

  /**
   A successful redemption of `code` moves the redeemer into the downline
   of `code` and out of every other downline; no other record moves.
   */
  lemma ActivateDownline(s: Store, u: User, code: Option<string>, d: Option<string>)
    requires Stored(s, u)
    requires InviteExists(s, code)
    ensures var s' := ActivateInviteCode(s, u, code).value.0;
      Downline(s', d) == if d == code then Downline(s, d) + {u.phone} else Downline(s, d) - {u.phone}
  {
  }
}
