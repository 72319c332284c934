/**
 * Accounts: registration with a minimum password length and a unique
 * display name, and login by display name and password. Passwords are kept
 * only as bcrypt digests.
 */
module Users {
  import opened Wrappers
  import opened Text
  import opened Db
  import opened ModelErrors
  import Bcrypt

  /** The minimum password length, in bytes of its UTF-8 encoding. */
  const MinPasswordLength: nat := 8
  const PasswordTooShort: string := "Password must be at least 8 characters."
  const InvalidPassword: string := "Invalid password."
  const NameTaken: string := "Display name already taken."
  const NoSuchUser: string := "No such user."

  /** A player's identifying information as the client sends and receives it. */
  datatype User = User(id: string, displayName: string, password: string)

  /**
   * CreateUser: check the password length, hash the password, and insert
   * the account. The caller gets the user back with the password blanked,
   * with its new id on success and alongside the error when the display
   * name is taken (or the insert fails otherwise).
   */
  method CreateUser(db: Database, user: User, hashFails: bool, insertFault: bool)
    returns (created: Option<User>, userErr: Option<UserError>)
    requires db.Valid()
    modifies db
    ensures db.Valid()
    ensures Utf8Length(user.password) < MinPasswordLength ==>
              created.None? && userErr == Some(PasswordError(PasswordTooShort))
    ensures Utf8Length(user.password) >= MinPasswordLength && hashFails ==>
              created.None? && userErr == Some(PasswordError(InvalidPassword))
    ensures var hashed := Utf8Length(user.password) >= MinPasswordLength && !hashFails;
            var registered := hashed && !insertFault && FindByName(old(db.accounts), user.displayName).None?;
            && (registered ==>
                  && db.accounts == old(db.accounts) + [Account(old(db.nextAccountId), user.displayName, Bcrypt.Hash(user.password))]
                  && created == Some(User(NatToString(old(db.nextAccountId)), user.displayName, ""))
                  && userErr.None?)
            && (!registered ==> db.accounts == old(db.accounts))
            && (hashed && !registered ==>
                  created == Some(user.(password := "")) && userErr == Some(DisplayNameError(NameTaken)))
    ensures db.sessions == old(db.sessions) && db.games == old(db.games) && db.turns == old(db.turns)
    ensures db.completedAt == old(db.completedAt)
    ensures db.nextGameId == old(db.nextGameId) && db.nextTurnId == old(db.nextTurnId)
    ensures db.nextCompletedAtId == old(db.nextCompletedAtId)
  {
    if Utf8Length(user.password) < MinPasswordLength {
      return None, Some(PasswordError(PasswordTooShort));
    }
    if hashFails {
      return None, Some(PasswordError(InvalidPassword));
    }
    var hash := Bcrypt.Hash(user.password);
    var result := user;
    userErr := None;
    if FindByName(db.accounts, user.displayName).Some? || insertFault {
      // the UNIQUE key on display_name, or the statement failed
      userErr := Some(DisplayNameError(NameTaken));
    } else {
      var id := db.nextAccountId;
      db.accounts := db.accounts + [Account(id, user.displayName, hash)];
      db.nextAccountId := db.nextAccountId + 1;
      result := result.(id := NatToString(id));
    }
    result := result.(password := "");
    created := Some(result);
  }

  /**
   * What a login by display name and password yields: the account id as a
   * decimal string (empty when there is no such account) and the error.
   */
  function Login(accounts: seq<Account>, name: string, password: string): (r: (string, Option<UserError>))
  {
    match FindByName(accounts, name)
    case None => ("", Some(DisplayNameError(NoSuchUser)))
    case Some(i) =>
      (NatToString(accounts[i].id),
       if Bcrypt.Verify(password, accounts[i].passwordHash) then None else Some(PasswordError(InvalidPassword)))
  }

  /**
   * A login succeeds exactly when an account has that name and the password
   * matches its digest, and then yields that account's id; an unknown name
   * and a wrong password are told apart.
   */
  lemma LoginIff(accounts: seq<Account>, nextId: nat, name: string, password: string)
    requires AccountsValid(accounts, nextId)
    ensures Login(accounts, name, password).1.None? <==>
              exists i :: 0 <= i < |accounts| && accounts[i].displayName == name
                          && Bcrypt.Verify(password, accounts[i].passwordHash)
    ensures forall i :: 0 <= i < |accounts| && accounts[i].displayName == name ==>
              Login(accounts, name, password).0 == NatToString(accounts[i].id)
    ensures (forall i :: 0 <= i < |accounts| ==> accounts[i].displayName != name) <==>
              Login(accounts, name, password) == ("", Some(DisplayNameError(NoSuchUser)))
    ensures (exists i :: 0 <= i < |accounts| && accounts[i].displayName == name
                         && !Bcrypt.Verify(password, accounts[i].passwordHash)) ==>
              Login(accounts, name, password).1 == Some(PasswordError(InvalidPassword))
  {
    forall i | 0 <= i < |accounts| && accounts[i].displayName == name
      ensures FindByName(accounts, name) == Some(i)
    {
      FindByNameUnique(accounts, nextId, name, i);
    }
  }

  /** After registering, logging in with the same name and password yields the new id. */
  lemma RegisterThenLogin(accounts: seq<Account>, nextId: nat, name: string, password: string)
    requires AccountsValid(accounts, nextId) && FindByName(accounts, name).None?
    ensures Login(accounts + [Account(nextId, name, Bcrypt.Hash(password))], name, password) == (NatToString(nextId), None)
  {
    var accounts' := accounts + [Account(nextId, name, Bcrypt.Hash(password))];
    assert FindByName(accounts', name) == Some(|accounts|);
  }

  /**
   * UserLookupByPassword: read the account with the display name, then
   * check the password against its digest. Nothing is written. A row that
   * cannot be read (scanFault) is reported as an unknown name.
   */
  method UserLookupByPassword(db: Database, user: User, scanFault: bool) returns (id: string, userErr: Option<UserError>)
    ensures !scanFault ==> (id, userErr) == Login(db.accounts, user.displayName, user.password)
    ensures scanFault ==> id == "" && userErr == Some(DisplayNameError(NoSuchUser))
    ensures userErr.None? ==> IsDigits(id)
  {
    id := "";
    var found := FindByName(db.accounts, user.displayName);
    if found.None? || scanFault {
      // row.Scan reports sql.ErrNoRows, or the read failed
      return id, Some(DisplayNameError(NoSuchUser));
    }
    var account := db.accounts[found.value];
    id := NatToString(account.id);
    if !Bcrypt.Verify(user.password, account.passwordHash) {
      return id, Some(PasswordError(InvalidPassword));
    }
    userErr := None;
  }
}
