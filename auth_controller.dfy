/**
 * Account registration, e-mail verification by one-time code, and login, as
 * methods of an Accounts store. Password hashing and comparison, the e-mail
 * pattern, the code generator and the mailer are outside the model and
 * arrive as parameters.
 */
module AuthController {
  import opened Wrappers
  import opened Ids

  /** At most this many unverified registrations may exist for one address. */
  const MaxUnverified: nat := 5
  const PasswordMinLength: nat := 8
  const PasswordMaxLength: nat := 16
  /** The role a new account receives. */
  const DefaultRole: string := "user"

  /** A stored user; `password` holds the hash. */
  datatype Account = Account(
    name: string,
    email: string,
    password: string,
    role: string,
    accountVerified: bool,
    verificationCode: Option<string>,
    verificationCodeExpire: Option<int>)

  datatype AuthError =
    | MissingFields
    | BadEmail
    | AlreadyRegistered
    | TooManyAttempts
    | BadPasswordLength      // raised without a status code
    | MailNotSent
    | InvalidCode
    | CodeExpired
    | InvalidCredentials     // unknown address and wrong password alike
    | NotVerified
  {
    /** The status the handlers answer with: 403 for an unverified login, 500 for the two server-side failures, 400 otherwise. */
    function Code(): (c: int)
      ensures c == 403 <==> NotVerified?
      ensures c == 500 <==> BadPasswordLength? || MailNotSent?
      ensures c == 400 || c == 403 || c == 500
    {
      match this
      case BadPasswordLength | MailNotSent => 500
      case NotVerified => 403
      case _ => 400
    }
  }

  /** A success carries the id of the account the token is issued for. */
  datatype AuthResponse = Ok(code: int, id: UserId) | Fail(error: AuthError)

  /** A request field is truthy: sent and not the empty string. */
  predicate Present(o: Option<string>) {
    o.Some? && o.value != ""
  }

  /** The ids of every record with address `e`. */
  function WithEmail(users: map<UserId, Account>, e: string): set<UserId> {
    set id | id in users && users[id].email == e
  }

  /** User.find({email: e, accountVerified: false}). */
  function UnverifiedIds(users: map<UserId, Account>, e: string): set<UserId> {
    set id | id in users && users[id].email == e && !users[id].accountVerified
  }

  /** User.findOne({email: e, accountVerified: true}) finds a record. */
  predicate HasVerified(users: map<UserId, Account>, e: string) {
    exists id :: id in users && users[id].email == e && users[id].accountVerified
  }

  /** The verified records of address `e`. */
  function VerifiedIds(users: map<UserId, Account>, e: string): set<UserId> {
    set id | id in users && users[id].email == e && users[id].accountVerified
  }

  lemma HasVerifiedIffSome(users: map<UserId, Account>, e: string)
    ensures HasVerified(users, e) <==> VerifiedIds(users, e) != {}
  {
    if HasVerified(users, e) {
      var id :| id in users && users[id].email == e && users[id].accountVerified;
      assert id in VerifiedIds(users, e);
    }
  }

  /** The unverified records of address `e` still waiting for code `otp`. */
  function OtpCandidates(users: map<UserId, Account>, e: string, otp: string): set<UserId> {
    set id | id in users && users[id].email == e && users[id].verificationCode == Some(otp)
             && !users[id].accountVerified
  }

  /** Every record of an address is either verified or unverified, never both. */
  lemma UnverifiedSplit(users: map<UserId, Account>, e: string)
    ensures UnverifiedIds(users, e) == WithEmail(users, e) - VerifiedIds(users, e)
    ensures UnverifiedIds(users, e) !! VerifiedIds(users, e)
  {
  }

  /** The candidates for a code are exactly the unverified records of the address that hold it. */
  lemma OtpCandidatesUnverified(users: map<UserId, Account>, e: string, otp: string)
    ensures OtpCandidates(users, e, otp) <= UnverifiedIds(users, e)
    ensures forall id :: id in UnverifiedIds(users, e) ==>
      (id in OtpCandidates(users, e, otp) <==> users[id].verificationCode == Some(otp))
  {
  }

  /** The record User.create makes, after generateVerificationCode has set the code and its expiry. */
  function NewAccount(name: string, email: string, hashed: string, code: string, expire: int): (a: Account)
    ensures a.email == email && a.password == hashed && a.role == DefaultRole
    ensures !a.accountVerified && a.verificationCode == Some(code) && a.verificationCodeExpire == Some(expire)
  {
    Account(name, email, hashed, DefaultRole, false, Some(code), Some(expire))
  }

  /** No address has more than MaxUnverified unverified records. */
  ghost predicate AttemptsBounded(users: map<UserId, Account>) {
    forall id :: id in users ==> |UnverifiedIds(users, users[id].email)| <= MaxUnverified
  }

  /**
   * User.findOne({email: e}) as written: the first record with that
   * address in natural order, whether verified or not.
   */
  function FindOne(users: map<UserId, Account>, e: string): (r: Option<UserId>)
    ensures r.None? <==> WithEmail(users, e) == {}
    ensures r.Some? ==> r.value in users && users[r.value].email == e
    ensures r.Some? ==> forall id :: id in users && users[id].email == e ==> r.value <= id
  {
    var all := WithEmail(users, e);
    if all == {} then None
    else
      assert forall id :: id in users && users[id].email == e ==> id in all;
      Some(Least(all))
  }

  /**
   * The record login should check: the address's verified account when it
   * has one, otherwise its first record.
   */
  function LoginRecord(users: map<UserId, Account>, e: string): (r: Option<UserId>)
    ensures r.None? <==> WithEmail(users, e) == {}
    ensures r.Some? ==> r.value in users && users[r.value].email == e
    ensures r.Some? ==> (users[r.value].accountVerified <==> HasVerified(users, e))
  {
    var verified := VerifiedIds(users, e);
    HasVerifiedIffSome(users, e);
    if verified != {} then Some(Least(verified)) else FindOne(users, e)
  }

  /** Whenever at most one record carries the address, the two lookups agree. */
  lemma {:induction false} LookupsAgreeOnSingleRecord(users: map<UserId, Account>, e: string)
    requires |WithEmail(users, e)| <= 1
    ensures LoginRecord(users, e) == FindOne(users, e)
  {
    var all := WithEmail(users, e);
    if all != {} {
      var x :| x in all;
      assert all == {x} by {
        forall y | y in all ensures y == x {
          if y != x {
            assert {x, y} <= all;
            SubsetCard({x, y}, all);
          }
        }
      }
      assert VerifiedIds(users, e) <= all;
      assert FindOne(users, e) == Some(x);
    }
  }

  /**
   * Two registrations for one address followed by verification of the
   * second: the address has a verified account, yet findOne({email})
   * returns the unverified first record, so login answers 403.
   */
  lemma LoginLookupMissesVerified()
    ensures var users := map[0 := NewAccount("a", "a@b.co", "h", "111111", 10),
                             1 := NewAccount("a", "a@b.co", "h", "222222", 10).(accountVerified := true)];
      && AttemptsBounded(users)
      && HasVerified(users, "a@b.co")
      && FindOne(users, "a@b.co") == Some(0) && !users[0].accountVerified
      && LoginRecord(users, "a@b.co") == Some(1)
  {
    var users := map[0 := NewAccount("a", "a@b.co", "h", "111111", 10),
                     1 := NewAccount("a", "a@b.co", "h", "222222", 10).(accountVerified := true)];
    assert UnverifiedIds(users, "a@b.co") == {0};
    assert WithEmail(users, "a@b.co") == {0, 1};
    assert VerifiedIds(users, "a@b.co") == {1};
  }

  lemma UnverifiedAfterAdd(users: map<UserId, Account>, n: UserId, a: Account, e: string)
    requires n !in users
    ensures UnverifiedIds(users[n := a], e)
         == UnverifiedIds(users, e) + (if a.email == e && !a.accountVerified then {n} else {})
  {
  }

  lemma UnverifiedAfterVerify(users: map<UserId, Account>, id: UserId, e: string)
    requires id in users
    ensures UnverifiedIds(users[id := users[id].(accountVerified := true)], e) == UnverifiedIds(users, e) - {id}
  {
  }

  lemma UnverifiedAfterRemove(users: map<UserId, Account>, id: UserId, e: string)
    ensures UnverifiedIds(users - {id}, e) == UnverifiedIds(users, e) - {id}
  {
  }

  /** A registration admitted below the limit keeps every address within it. */
  lemma RegisterKeepsBound(users: map<UserId, Account>, n: UserId, a: Account)
    requires AttemptsBounded(users) && n !in users
    requires |UnverifiedIds(users, a.email)| < MaxUnverified
    ensures AttemptsBounded(users[n := a])
  {
    var added := users[n := a];
    forall id | id in added ensures |UnverifiedIds(added, added[id].email)| <= MaxUnverified {
      UnverifiedAfterAdd(users, n, a, added[id].email);
    }
  }

  /** Verifying or deleting a record never raises an address's count of unverified records. */
  lemma VerifyOrRemoveKeepsBound(users: map<UserId, Account>, id: UserId)
    requires AttemptsBounded(users) && id in users
    ensures AttemptsBounded(users[id := users[id].(accountVerified := true)])
    ensures AttemptsBounded(users - {id})
  {
    var verified := users[id := users[id].(accountVerified := true)];
    forall k | k in verified ensures |UnverifiedIds(verified, verified[k].email)| <= MaxUnverified {
      var e := verified[k].email;
      UnverifiedAfterVerify(users, id, e);
      SubsetCard(UnverifiedIds(verified, e), UnverifiedIds(users, e));
    }
    forall k | k in users - {id} ensures |UnverifiedIds(users - {id}, users[k].email)| <= MaxUnverified {
      var e := users[k].email;
      UnverifiedAfterRemove(users, id, e);
      SubsetCard(UnverifiedIds(users - {id}, e), UnverifiedIds(users, e));
    }
  }

  /** The user collection. */
  class Accounts {
    var users: map<UserId, Account>
    var nextId: nat

    ghost predicate Valid()
      reads this
    {
      (forall id :: id in users ==> id < nextId) && AttemptsBounded(users)
    }

    constructor ()
      ensures Valid() && users == map[] && nextId == 0
    {
      users, nextId := map[], 0;
    }

    /**
     * register: the guards run in order (missing field, malformed address,
     * verified account exists, too many unverified attempts, password
     * length); an admitted request stores one unverified record with a
     * fresh code, which is deleted again when the code cannot be mailed.
     */
    method Register(name: Option<string>, email: Option<string>, password: Option<string>,
                    isEmail: string -> bool, hash: string -> string,
                    code: string, expire: int, mailSent: bool) returns (r: AuthResponse)
      requires Valid()
      modifies this
      ensures Valid()
      ensures r.Ok? ==> r.code == 200 && r.id == old(nextId)
      ensures r.Ok? ==>
        && name.Some? && email.Some? && password.Some?
        && users == old(users)[old(nextId) := NewAccount(name.value, email.value, hash(password.value), code, expire)]
      ensures r.Fail? ==> users == old(users)
      ensures nextId == old(nextId) || nextId == old(nextId) + 1
      ensures !Present(name) || !Present(email) || !Present(password) ==> r == Fail(MissingFields)
      ensures Present(name) && Present(email) && Present(password) ==>
        var e, p := email.value, password.value;
        if !isEmail(e) then r == Fail(BadEmail)
        else if HasVerified(old(users), e) then r == Fail(AlreadyRegistered)
        else if |UnverifiedIds(old(users), e)| >= MaxUnverified then r == Fail(TooManyAttempts)
        else if |p| < PasswordMinLength || |p| > PasswordMaxLength then r == Fail(BadPasswordLength)
        else if mailSent then r == Ok(200, old(nextId))
        else r == Fail(MailNotSent)
    {
      if !Present(name) || !Present(email) || !Present(password) {
        return Fail(MissingFields);
      }
      var e, p := email.value, password.value;
      if !isEmail(e) {
        return Fail(BadEmail);
      }
      if HasVerified(users, e) {
        return Fail(AlreadyRegistered);
      }
      if |UnverifiedIds(users, e)| >= MaxUnverified {
        return Fail(TooManyAttempts);
      }
      if |p| < PasswordMinLength || |p| > PasswordMaxLength {
        return Fail(BadPasswordLength);
      }
      var id := nextId;
      var account := NewAccount(name.value, e, hash(p), code, expire);
      RegisterKeepsBound(users, id, account);
      users := users[id := account];
      nextId := nextId + 1;
      if mailSent {
        r := Ok(200, id);
      } else {
        VerifyOrRemoveKeepsBound(users, id);
        users := users - {id};
        assert users == old(users);
        r := Fail(MailNotSent);
      }
    }

    /**
     * verifyOtp: finds the first unverified record of the address whose
     * code is `otp`; an expired or expiry-less code deletes that record,
     * otherwise the record becomes verified and a token is issued for it.
     */
    method VerifyOtp(email: Option<string>, otp: Option<string>, isEmail: string -> bool, now: int)
      returns (r: AuthResponse)
      requires Valid()
      modifies this
      ensures Valid()
      ensures nextId == old(nextId)
      ensures !Present(email) || !Present(otp) ==> r == Fail(MissingFields) && users == old(users)
      ensures Present(email) && Present(otp) && !isEmail(email.value) ==> r == Fail(BadEmail) && users == old(users)
      ensures Present(email) && Present(otp) && isEmail(email.value) ==>
        var found := OtpCandidates(old(users), email.value, otp.value);
        if found == {} then r == Fail(InvalidCode) && users == old(users)
        else
          var id := Least(found);
          var expire := old(users)[id].verificationCodeExpire;
          if expire.None? || now > expire.value then r == Fail(CodeExpired) && users == old(users) - {id}
          else r == Ok(200, id) && users == old(users)[id := old(users)[id].(accountVerified := true)]
      ensures r.Ok? ==> r.id in users && users[r.id].accountVerified
    {
      if !Present(email) || !Present(otp) {
        return Fail(MissingFields);
      }
      if !isEmail(email.value) {
        return Fail(BadEmail);
      }
      var found := OtpCandidates(users, email.value, otp.value);
      if found == {} {
        return Fail(InvalidCode);
      }
      var id := Least(found);
      VerifyOrRemoveKeepsBound(users, id);
      var expire := users[id].verificationCodeExpire;
      if expire.None? || now > expire.value {
        users := users - {id};
        return Fail(CodeExpired);
      }
      users := users[id := users[id].(accountVerified := true)];
      r := Ok(200, id);
    }

    /**
     * login: missing field and malformed address first; then the same
     * InvalidCredentials answer for an unknown address and for a wrong
     * password, with an unverified account refused (403) before its password
     * is compared. The record checked is LoginRecord's.
     */
    method Login(email: Option<string>, password: Option<string>,
                 isEmail: string -> bool, matches: (string, string) -> bool) returns (r: AuthResponse)
      ensures !Present(email) || !Present(password) ==> r == Fail(MissingFields)
      ensures Present(email) && Present(password) && !isEmail(email.value) ==> r == Fail(BadEmail)
      ensures Present(email) && Present(password) && isEmail(email.value) ==>
        match LoginRecord(users, email.value)
        case None => r == Fail(InvalidCredentials)
        case Some(id) =>
          if !users[id].accountVerified then r == Fail(NotVerified)
          else if !matches(password.value, users[id].password) then r == Fail(InvalidCredentials)
          else r == Ok(200, id)
      ensures r.Ok? ==> r.id in users && users[r.id].accountVerified && users[r.id].email == email.value
                        && matches(password.value, users[r.id].password)
      ensures r == Fail(NotVerified) ==> !HasVerified(users, email.value)
    {
      if !Present(email) || !Present(password) {
        return Fail(MissingFields);
      }
      if !isEmail(email.value) {
        return Fail(BadEmail);
      }
      var found := LoginRecord(users, email.value);
      if found.None? {
        return Fail(InvalidCredentials);
      }
      var id := found.value;
      if !users[id].accountVerified {
        return Fail(NotVerified);
      }
      if !matches(password.value, users[id].password) {
        return Fail(InvalidCredentials);
      }
      r := Ok(200, id);
    }
  }

  /** What the lookups of the scenario below find in each of its three stores. */
  lemma ScenarioLookups(a0: Account, a1: Account)
    requires a0 == NewAccount("a", "a@b.co", "password1", "111111", 10)
    requires a1 == NewAccount("a", "a@b.co", "password1", "222222", 10)
    ensures UnverifiedIds(map[], "a@b.co") == {}
    ensures UnverifiedIds(map[0 := a0], "a@b.co") == {0}
    ensures OtpCandidates(map[0 := a0, 1 := a1], "a@b.co", "222222") == {1}
    ensures Least({1}) == 1
    ensures var users := map[0 := a0, 1 := a1.(accountVerified := true)];
      && HasVerified(users, "a@b.co")
      && FindOne(users, "a@b.co") == Some(0)
      && LoginRecord(users, "a@b.co") == Some(1)
  {
    var users := map[0 := a0, 1 := a1.(accountVerified := true)];
    assert WithEmail(users, "a@b.co") == {0, 1};
    assert VerifiedIds(users, "a@b.co") == {1};
  }

  /**
   * The sequence behind LoginLookupMissesVerified, driven through the
   * handlers: two registrations for one address, then the second code is
   * verified. The first record stays unverified and is the one findOne({email})
   * returns.
   */
  method DuplicateRegistrationScenario() returns (users: map<UserId, Account>)
    ensures HasVerified(users, "a@b.co")
    ensures FindOne(users, "a@b.co") == Some(0) && !users[0].accountVerified
    ensures LoginRecord(users, "a@b.co") == Some(1)
  {
    var store := new Accounts();
    var isEmail := (s: string) => true;
    var hash := (s: string) => s;
    ghost var a0 := NewAccount("a", "a@b.co", "password1", "111111", 10);
    ghost var a1 := NewAccount("a", "a@b.co", "password1", "222222", 10);
    ScenarioLookups(a0, a1);
    var first := store.Register(Some("a"), Some("a@b.co"), Some("password1"), isEmail, hash, "111111", 10, true);
    assert first == Ok(200, 0) && store.users == map[0 := a0];
    var second := store.Register(Some("a"), Some("a@b.co"), Some("password1"), isEmail, hash, "222222", 10, true);
    assert second == Ok(200, 1) && store.users == map[0 := a0, 1 := a1];
    var verified := store.VerifyOtp(Some("a@b.co"), Some("222222"), isEmail, 5);
    assert verified == Ok(200, 1);
    users := store.users;
    assert users == map[0 := a0, 1 := a1.(accountVerified := true)];
  }
}

