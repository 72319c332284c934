/** Looking a player up by display name, as a contact list does. */
module Contacts {
  import opened Wrappers
  import opened Text
  import opened Db
  import opened ModelErrors
  import opened Users
  import Bcrypt

  /**
   * ContactLookup: the user with the display name, carrying its id and
   * name only, or an error when there is none or the row cannot be read
   * (scanFault). Nothing is written.
   */
  function ContactLookup(db: Database, name: string, scanFault: bool): (r: (Option<User>, Option<UserError>))
    reads db
    ensures r.0.Some? <==> r.1.None?
    ensures r.0.Some? ==> !scanFault
    ensures r.0.Some? ==> exists i :: 0 <= i < |db.accounts| && db.accounts[i].displayName == name
                            && r.0.value == User(NatToString(db.accounts[i].id), name, "")
    ensures r.0.None? ==> r.1 == Some(DisplayNameError(NoSuchUser))
    ensures r.0.None? && !scanFault ==> forall i :: 0 <= i < |db.accounts| ==> db.accounts[i].displayName != name
  {
    if scanFault then (None, Some(DisplayNameError(NoSuchUser)))
    else
      match FindByName(db.accounts, name)
      case None => (None, Some(DisplayNameError(NoSuchUser)))
      case Some(i) => (Some(User(NatToString(db.accounts[i].id), name, "")), None)
  }

  /** A contact lookup and a successful login by the same name agree on the id. */
  lemma ContactAgreesWithLogin(db: Database, name: string, password: string)
    requires db.Valid()
    requires Login(db.accounts, name, password).1.None?
    ensures ContactLookup(db, name, false) == (Some(User(Login(db.accounts, name, password).0, name, "")), None)
  {
  }

  /** A registered name is found, with the id its registration assigned. */
  lemma ContactAfterRegister(accounts: seq<Account>, nextId: nat, name: string, password: string, db: Database)
    requires AccountsValid(accounts, nextId)
    requires db.accounts == accounts + [Account(nextId, name, Bcrypt.Hash(password))]
    ensures ContactLookup(db, name, false).0 == Some(User(NatToString(nextId), name, ""))
  {
    assert FindByName(db.accounts, name) == Some(|accounts|);
  }
}
