/**
 The referral service: authenticate a phone number, check an auth code,
 redeem an invite code, and read a user's profile with the downline of the
 user's invite code. Each operation is a pure function of the store it runs
 against and returns the store it leaves behind.
 */
module Services {
  import opened Wrappers
  import opened Users

  /**
   Get-or-create the record for `phone`, then give it the invite code
   `generated` if its invite code is still blank. `generated` stands for the
   random code the model class draws; nothing is assumed about it.
   Returns the new store and the user record.
   */
  function Authenticate(s: Store, phone: string, generated: string): (r: (Store, User))
    // get_or_create: the key set gains `phone` and nothing else
    ensures r.0.Keys == s.Keys + {phone}
    ensures phone in s ==> |r.0| == |s|
    ensures phone !in s ==> |r.0| == |s| + 1
    // the returned user is the stored one
    ensures r.0[phone] == r.1
    // every other record is untouched
    ensures forall q :: q in s && q != phone ==> r.0[q] == s[q]
    // an existing record keeps phone, auth code and redeemed code
    ensures phone in s ==>
      && r.1.phone == s[phone].phone
      && r.1.authCode == s[phone].authCode
      && r.1.activatedInviteCode == s[phone].activatedInviteCode
    // a new record carries the defaults apart from its invite code
    ensures phone !in s ==>
      && r.1.phone == phone
      && r.1.authCode == None
      && r.1.activatedInviteCode == None
    // a blank invite code is filled with the generated one ...
    ensures (phone !in s || s[phone].inviteCode == BlankCode) ==> r.1.inviteCode == Some(generated)
    // ... and a record whose invite code is not blank is left exactly as it was
    ensures phone in s && s[phone].inviteCode != BlankCode ==> r.0 == s && r.1 == s[phone]
  {
    var u := if phone in s then s[phone] else Blank(phone);
    var u' := if u.inviteCode == BlankCode then u.(inviteCode := Some(generated)) else u;
    (s[phone := u'], u')
  }

  /** Succeeds with `u` exactly when `code` equals its stored auth code. */
  function VerifyAuthCode(u: User, code: Option<string>): (r: Result<User, Error>)
    ensures r.Ok? <==> code == u.authCode
    ensures r.Ok? ==> r.value == u
    ensures r.Err? ==> r.error == InvalidAuthCode
  {
    if u.authCode == code then Ok(u) else Err(InvalidAuthCode)
  }

  /**
   Redeem `code` for the user instance `u`: if some record hands out `code`,
   record it as `u`'s activated invite code and save `u` under its phone
   number. Neither self-referral nor a second redemption is refused.
   */
  function ActivateInviteCode(s: Store, u: User, code: Option<string>): (r: Result<(Store, User), Error>)
    ensures r.Ok? <==> InviteExists(s, code)
    ensures r.Err? ==> r.error == InvalidInviteCode
    // on success only the activated invite code of `u` changes, and it becomes `code`
    ensures r.Ok? ==>
      && r.value.1.phone == u.phone
      && r.value.1.authCode == u.authCode
      && r.value.1.inviteCode == u.inviteCode
      && r.value.1.activatedInviteCode == code
    // `u` is saved under its phone number and nothing else in the store moves
    ensures r.Ok? ==> r.value.0.Keys == s.Keys + {u.phone} && r.value.0[u.phone] == r.value.1
    ensures r.Ok? ==> forall q :: q in s && q != u.phone ==> r.value.0[q] == s[q]
  {
    if exists q :: q in s && s[q].inviteCode == code then
      var u' := u.(activatedInviteCode := code);
      Ok((s[u.phone := u'], u'))
    else
      Err(InvalidInviteCode)
  }

  /** What the profile query returns. */
  datatype Profile = Profile(
    phone: string,
    inviteCode: Option<string>,
    activatedInviteCode: Option<string>,
    usedBy: seq<string>)

  /**
   Read `u`'s own fields and collect, in no promised order, the phone
   numbers of every record whose activated invite code equals `u`'s invite
   code. The store is only read.
   */
  method GetUserProfile(s: Store, u: User) returns (p: Profile)
    ensures p.phone == u.phone
    ensures p.inviteCode == u.inviteCode
    ensures p.activatedInviteCode == u.activatedInviteCode
    ensures forall q :: q in p.usedBy <==> q in Downline(s, u.inviteCode)
    ensures forall i, j :: 0 <= i < j < |p.usedBy| ==> p.usedBy[i] != p.usedBy[j]
    ensures |p.usedBy| == |Downline(s, u.inviteCode)|
  {
    var usedBy: seq<string> := [];
    var todo := s.Keys;
    while todo != {}
      invariant todo <= s.Keys
      invariant forall i :: 0 <= i < |usedBy| ==>
        usedBy[i] in s && usedBy[i] !in todo && s[usedBy[i]].activatedInviteCode == u.inviteCode
      invariant forall q :: q in s && q !in todo && s[q].activatedInviteCode == u.inviteCode ==> q in usedBy
      invariant forall i, j :: 0 <= i < j < |usedBy| ==> usedBy[i] != usedBy[j]
      decreases todo
    {
      var q :| q in todo;
      if s[q].activatedInviteCode == u.inviteCode {
        usedBy := usedBy + [q];
      }
      todo := todo - {q};
    }
    DistinctCard(usedBy, Downline(s, u.inviteCode));
    p := Profile(u.phone, u.inviteCode, u.activatedInviteCode, usedBy);
  }

  /** A duplicate-free sequence has as many elements as the set of its elements. */
  lemma {:induction false} DistinctCard(xs: seq<string>, d: set<string>)
    requires forall q :: q in xs <==> q in d
    requires forall i, j :: 0 <= i < j < |xs| ==> xs[i] != xs[j]
    ensures |xs| == |d|
    decreases |xs|
  {
    if xs != [] {
      var x := xs[|xs| - 1];
      var rest := xs[..|xs| - 1];
      forall q
        ensures q in rest <==> q in d - {x}
      {
        if q in rest {
          var k :| 0 <= k < |rest| && rest[k] == q;
          assert xs[k] == q;
        }
        if q in d - {x} {
          var k :| 0 <= k < |xs| && xs[k] == q;
          assert k != |xs| - 1;
          assert rest[k] == q;
        }
      }
      DistinctCard(rest, d - {x});
    } else {
      assert forall q :: q !in d;
      assert d == {};
    }
  }
}
