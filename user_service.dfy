/** UserService over its user store: login, and the guarded flips of the
    blocked flag and of the role. The store is the map `users` from id to
    user; the email whitelist is `approvedEmails`; the password encoder's
    matches(raw, encoded) is the function `matches`. */
module Users {
  import opened Wrappers
  import opened UserRules

  class UserService {
    var users: map<nat, User>
    const approvedEmails: set<string>
    const matches: (string, string) -> bool

    /** Each user is stored under its own id, and emails are unique, which
        registration keeps by refusing a taken email (CheckRegistration and
        RegistrationKeepsEmailsUnique). */
    ghost predicate Valid()
      reads this
    {
      && (forall k :: k in users ==> users[k].id == k)
      && EmailsUnique(users)
    }

    constructor (users: map<nat, User>, approvedEmails: set<string>, matches: (string, string) -> bool)
      requires forall k :: k in users ==> users[k].id == k
      requires EmailsUnique(users)
      ensures Valid()
      ensures this.users == users && this.approvedEmails == approvedEmails && this.matches == matches
    {
      this.users := users;
      this.approvedEmails := approvedEmails;
      this.matches := matches;
    }

    /** register's checks against the current store and whitelist: a request
        that passes names an email no stored user has and that is approved. */
    method CheckRegistration(req: UserRequest) returns (r: Outcome<UserError>)
      ensures r == CheckUserData(req, users, approvedEmails)
      ensures r == Pass ==> !IsEmailTaken(users, req.email) && req.email in approvedEmails
    {
      r := CheckUserData(req, users, approvedEmails);
    }

    /** login: an unknown email and a wrong password both fail as incorrect
        login data; then a disabled user, then a blocked user fails. */
    method Login(email: string, password: string) returns (r: Result<User, UserError>)
      requires Valid()
      ensures (forall k :: k in users ==> users[k].email != email) ==> r == Failure(IncorrectLoginData)
      ensures forall k :: k in users && users[k].email == email ==> r == CheckLogin(users[k], password, matches)
      ensures r.Success? ==> r.value in users.Values && r.value.email == email
    {
      if exists k :: k in users && users[k].email == email {
        var k :| k in users && users[k].email == email;
        r := CheckLogin(users[k], password, matches);
      } else {
        r := Failure(IncorrectLoginData);
      }
    }

    /** block: an unknown user or an already blocked user fails; otherwise
        the user becomes blocked and nothing else changes. */
    method Block(id: nat) returns (r: Result<User, UserError>)
      requires Valid()
      modifies this
      ensures Valid()
      ensures id !in old(users) ==> r == Failure(UserNotFound(id))
      ensures id in old(users) && old(users)[id].isBlocked ==> r == Failure(UserAlreadyBlocked)
      ensures r.Failure? ==> users == old(users)
      ensures r.Success? <==> id in old(users) && !old(users)[id].isBlocked
      ensures r.Success? ==> r.value == old(users)[id].(isBlocked := true) && users == old(users)[id := r.value]
    {
      if id !in users {
        return Failure(UserNotFound(id));
      }
      var user := users[id];
      if user.isBlocked {
        return Failure(UserAlreadyBlocked);
      }
      user := user.(isBlocked := true);
      users := users[id := user];
      r := Success(user);
    }

    /** unblock: the mirror image of block. */
    method Unblock(id: nat) returns (r: Result<User, UserError>)
      requires Valid()
      modifies this
      ensures Valid()
      ensures id !in old(users) ==> r == Failure(UserNotFound(id))
      ensures id in old(users) && !old(users)[id].isBlocked ==> r == Failure(UserNotBlocked)
      ensures r.Failure? ==> users == old(users)
      ensures r.Success? <==> id in old(users) && old(users)[id].isBlocked
      ensures r.Success? ==> r.value == old(users)[id].(isBlocked := false) && users == old(users)[id := r.value]
    {
      if id !in users {
        return Failure(UserNotFound(id));
      }
      var user := users[id];
      if !user.isBlocked {
        return Failure(UserNotBlocked);
      }
      user := user.(isBlocked := false);
      users := users[id := user];
      r := Success(user);
    }

    /** makeAdmin: fails for an unknown user or one who is already an admin. */
    method MakeAdmin(id: nat) returns (r: Result<User, UserError>)
      requires Valid()
      modifies this
      ensures Valid()
      ensures id !in old(users) ==> r == Failure(UserNotFound(id))
      ensures id in old(users) && old(users)[id].role == Admin ==> r == Failure(UserAlreadyAdmin)
      ensures r.Failure? ==> users == old(users)
      ensures r.Success? <==> id in old(users) && old(users)[id].role != Admin
      ensures r.Success? ==> r.value == old(users)[id].(role := Admin) && users == old(users)[id := r.value]
    {
      if id !in users {
        return Failure(UserNotFound(id));
      }
      var user := users[id];
      if user.role == Admin {
        return Failure(UserAlreadyAdmin);
      }
      user := user.(role := Admin);
      users := users[id := user];
      r := Success(user);
    }

    /** makeDriver: fails for an unknown user or one who is already a driver. */
    method MakeDriver(id: nat) returns (r: Result<User, UserError>)
      requires Valid()
      modifies this
      ensures Valid()
      ensures id !in old(users) ==> r == Failure(UserNotFound(id))
      ensures id in old(users) && old(users)[id].role == Driver ==> r == Failure(UserAlreadyDriver)
      ensures r.Failure? ==> users == old(users)
      ensures r.Success? <==> id in old(users) && old(users)[id].role != Driver
      ensures r.Success? ==> r.value == old(users)[id].(role := Driver) && users == old(users)[id := r.value]
    {
      if id !in users {
        return Failure(UserNotFound(id));
      }
      var user := users[id];
      if user.role == Driver {
        return Failure(UserAlreadyDriver);
      }
      user := user.(role := Driver);
      users := users[id := user];
      r := Success(user);
    }
  }

  /** A successful block followed by unblock restores the store, and the
      unblock cannot fail. */
  method BlockThenUnblock(service: UserService, id: nat)
    returns (r1: Result<User, UserError>, r2: Result<User, UserError>)
    requires service.Valid()
    modifies service
    ensures service.Valid()
    ensures r1.Success? ==> r2.Success? && service.users == old(service.users)
  {
    r1 := service.Block(id);
    r2 := service.Unblock(id);
    if r1.Success? {
      assert service.users == old(service.users)[id := old(service.users)[id]];
    }
  }

  /** A blocked user with the right password cannot log in. */
  method BlockedUserCannotLogin(service: UserService, id: nat, password: string)
    returns (blocked: Result<User, UserError>, login: Result<User, UserError>)
    requires service.Valid()
    requires id in service.users
    modifies service
    ensures blocked.Success? ==> login.Failure?
  {
    blocked := service.Block(id);
    login := service.Login(service.users[id].email, password);
  }
}
