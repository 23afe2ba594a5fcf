/**
 The user record store: one record per phone number, each holding the
 current auth code, the user's own invite code and the invite code the user
 has redeemed. The three code columns are nullable, so they are `Option`s.
 */
module Users {
  import opened Wrappers

  datatype User = User(
    phone: string,
    authCode: Option<string>,
    inviteCode: Option<string>,
    activatedInviteCode: Option<string>)

  /** The persisted table, keyed by the unique phone-number column. */
  type Store = map<string, User>

  /** The error kinds the referral service raises. */
  datatype Error = InvalidAuthCode | InvalidInviteCode

  /** The invite code of a record that has not been given one yet. */
  const BlankCode: Option<string> := Some("")

  /**
   The record taken to be inserted by `get_or_create` for a phone number it
   has not seen: no auth code, a blank invite code, nothing redeemed. The
   defaults of the user model class are an assumption of this model.
   */
  function Blank(phone: string): User
  {
    User(phone, None, BlankCode, None)
  }

  /** Every record sits under its own phone number. */
  predicate WellFormed(s: Store)
  {
    forall p :: p in s ==> s[p].phone == p
  }

  /** Some record of the store hands out `code` as its invite code. */
  predicate InviteExists(s: Store, code: Option<string>)
  {
    exists q :: q in s && s[q].inviteCode == code
  }

  /** The phone numbers of the records that redeemed `code` (the downline of its owner). */
  function Downline(s: Store, code: Option<string>): set<string>
  {
    set q | q in s && s[q].activatedInviteCode == code
  }
}
