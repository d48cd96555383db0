/** The two token decisions of the view classes: `is_allowed` of the unit
    and subunit views, and `get_account_contact` of the department view. The
    token is taken as already decoded; an absent claim is `None`. */
module Access {
  import opened Util

  datatype Token = Token(
    iss: Option<string>,
    accountId: Option<int>,
    childId: Option<int>,
    contactId: Option<int>,
    isAdmin: Option<bool>,
    isSuperAdmin: Option<bool>)

  /** Python truthiness of an optional integer claim. */
  predicate IntTruthy(v: Option<int>)
  {
    v.Some? && v.value != 0
  }

  predicate BoolTruthy(v: Option<bool>)
  {
    v == Some(true)
  }

  /** A token from another issuer (the CMS) is trusted as it is. */
  predicate ForeignIssuer(t: Token, issuer: string)
  {
    t.iss != Some(issuer)
  }

  /** The account a token speaks for: `childId` when it is set, else `accountId`. */
  function TokenAccount(t: Token): Option<int>
  {
    if IntTruthy(t.childId) then t.childId else t.accountId
  }

  /** `is_allowed`, with its second issuer test (which can no longer fire
      once the first has passed) kept in place. */
  function IsAllowed(t: Token, issuer: string, accountId: int): (r: bool)
    // granted to any foreign-issuer token, otherwise exactly to an
    // administrator of the same account
    ensures r <==> ForeignIssuer(t, issuer) || (TokenAccount(t) == Some(accountId) && t.isAdmin == Some(true))
  {
    if ForeignIssuer(t, issuer) then true
    else if TokenAccount(t) != Some(accountId) then false
    else if ForeignIssuer(t, issuer) then true
    else if BoolTruthy(t.isAdmin) then true
    else false
  }

  /** The `(error, account_id, contact_id)` triple `get_account_contact` returns. */
  datatype ContactAccess = ContactAccess(error: Option<string>, account: Option<int>, contact: Option<int>)

  const NotAllowedMessage: string := "You are not allowed"
  const ContactNotFoundMessage: string := "Contact not found"

  /** The triple either carries an error and nothing else, or the requested
      account and, for a plain user of that account only, the token's
      non-zero contact. */
  function GetAccountContact(t: Token, issuer: string, accountId: int): (a: ContactAccess)
    ensures a.error.Some? ==> a.account.None? && a.contact.None?
    ensures a.error.None? ==> a.account == Some(accountId)
    ensures a.error == Some(NotAllowedMessage)
        <==> !ForeignIssuer(t, issuer) && TokenAccount(t) != Some(accountId)
    ensures a.error == Some(ContactNotFoundMessage)
        <==> (&& !ForeignIssuer(t, issuer) && TokenAccount(t) == Some(accountId)
              && t.isAdmin != Some(true) && t.isSuperAdmin != Some(true)
              && !(t.contactId.Some? && t.contactId.value != 0))
    ensures a.contact.Some?
        <==> (&& !ForeignIssuer(t, issuer) && TokenAccount(t) == Some(accountId)
              && t.isAdmin != Some(true) && t.isSuperAdmin != Some(true)
              && t.contactId.Some? && t.contactId.value != 0)
    ensures a.contact.Some? ==> a.contact == t.contactId
  {
    if ForeignIssuer(t, issuer) then ContactAccess(None, Some(accountId), None)
    else if TokenAccount(t) != Some(accountId) then ContactAccess(Some(NotAllowedMessage), None, None)
    else if BoolTruthy(t.isAdmin) || BoolTruthy(t.isSuperAdmin) then ContactAccess(None, Some(accountId), None)
    else if !IntTruthy(t.contactId) then ContactAccess(Some(ContactNotFoundMessage), None, None)
    else ContactAccess(None, Some(accountId), t.contactId)
  }

  /** A token `is_allowed` accepts is never refused by `get_account_contact`,
      and it is then never asked for a contact. */
  lemma AllowedImpliesNoError(t: Token, issuer: string, accountId: int)
    requires IsAllowed(t, issuer, accountId)
    ensures GetAccountContact(t, issuer, accountId) == ContactAccess(None, Some(accountId), None)
  {
  }
}
