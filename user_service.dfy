/** Back-office and station-operator accounts (Services/UserService.cs over
    Repositories/UserRepository.cs): the role whitelist and username check on
    create, the password hash kept across updates, login, password change and
    activation. The password hash (SHA-256, then Base64) is a function the
    service is given; nothing about it is assumed. */
module Accounts {
  import opened Common
  import opened Clock
  import opened Collections
  import opened Keyed
  import opened Models

  const Backoffice := "Backoffice"
  const StationOperator := "StationOperator"
  const InvalidRole := "Invalid user role. Must be 'Backoffice' or 'StationOperator'"
  const UsernameTaken := "Username already exists"
  const UserNotFound := "User not found"
  const WrongPassword := "Current password is incorrect"

  function UserId(u: User): string {
    u.Id
  }

  function UserName(u: User): string {
    u.Username
  }

  predicate IsValidRole(role: string) {
    role == Backoffice || role == StationOperator
  }

  /** `GetByIdAsync`. */
  function FindUser(users: seq<User>, id: string): (r: Option<User>)
    ensures r.None? <==> forall j :: 0 <= j < |users| ==> users[j].Id != id
    ensures r.Some? ==> r.value in users && r.value.Id == id
  {
    Lookup(users, UserId, id)
  }

  /** `GetByUsernameAsync`: the first user with that name. */
  function FindByUsername(users: seq<User>, username: string): (r: Option<User>)
    ensures r.None? <==> forall j :: 0 <= j < |users| ==> users[j].Username != username
    ensures r.Some? ==> r.value in users && r.value.Username == username
  {
    Lookup(users, UserName, username)
  }

  /** `AuthenticateUserAsync`: the user found by name is active and the
      password hashes to the stored hash. */
  function Authenticate(users: seq<User>, hash: string -> string, username: string, password: string): (r: bool)
    ensures r <==>
      exists j :: 0 <= j < |users| && users[j].Username == username &&
        (forall k :: 0 <= k < j ==> users[k].Username != username) &&
        users[j].IsActive && hash(password) == users[j].PasswordHash
  {
    FirstNamed(users, username);
    var user := FindByUsername(users, username);
    user.Some? && user.value.IsActive && hash(password) == user.value.PasswordHash
  }

  /** A lookup by name finds the first user with that name. */
  lemma FirstNamed(users: seq<User>, username: string)
    ensures FindByUsername(users, username).Some? ==>
      exists j :: 0 <= j < |users| && users[j] == FindByUsername(users, username).value &&
        forall k :: 0 <= k < j ==> users[k].Username != username
    ensures forall j ::
      (0 <= j < |users| && users[j].Username == username &&
       forall k :: 0 <= k < j ==> users[k].Username != username) ==>
      FindByUsername(users, username) == Some(users[j])
  {
    var p := KeyIs(UserName, username);
    assert FindByUsername(users, username) == First(users, p);
    forall j | 0 <= j < |users| && users[j].Username == username &&
      (forall k :: 0 <= k < j ==> users[k].Username != username)
      ensures FindByUsername(users, username) == Some(users[j])
    {
      assert p(users[j]);
      var i :| 0 <= i < |users| && users[i] == First(users, p).value && forall k :: 0 <= k < i ==> !p(users[k]);
      assert p(users[i]);
    }
  }

  /** The users collection. */
  class UserRepository {
    var users: seq<User>

    ghost predicate Valid()
      reads this
    {
      UniqueKeys(users, UserId)
    }

    constructor (initial: seq<User>)
      requires UniqueKeys(initial, UserId)
      ensures Valid() && users == initial
    {
      users := initial;
    }

    /** `CreateAsync`: an empty id is replaced by the store's generated id; an
        id already in use is refused. */
    method Create(user: User, generatedId: string) returns (r: Result<User>)
      requires Valid()
      requires generatedId != "" && FindUser(users, generatedId).None?
      modifies this
      ensures Valid()
      ensures
        var stored := if user.Id == "" then user.(Id := generatedId) else user;
        if FindUser(old(users), stored.Id).Some? then
          r == Err(Database(DuplicateKey)) && users == old(users)
        else
          r == Ok(stored) && users == old(users) + [stored]
    {
      var stored := if user.Id == "" then user.(Id := generatedId) else user;
      if FindUser(users, stored.Id).Some? {
        r := Err(Database(DuplicateKey));
      } else {
        AppendEffect(users, UserId, stored);
        users := users + [stored];
        r := Ok(stored);
      }
    }

    /** `UpdateAsync`: replaces the user with that id. */
    method Update(id: string, user: User)
      requires Valid() && user.Id == id
      modifies this
      ensures Valid()
      ensures users == ReplaceFirst(old(users), KeyIs(UserId, id), user)
      ensures FindUser(users, id) == if FindUser(old(users), id).Some? then Some(user) else None
      ensures forall other :: other != id ==> FindUser(users, other) == FindUser(old(users), other)
    {
      ReplaceEffect(users, UserId, id, user);
      users := ReplaceFirst(users, KeyIs(UserId, id), user);
    }

    /** `DeleteAsync`: removes the user with that id. */
    method Delete(id: string)
      requires Valid()
      modifies this
      ensures Valid()
      ensures users == RemoveFirst(old(users), KeyIs(UserId, id))
      ensures FindUser(users, id).None?
      ensures forall other :: other != id ==> FindUser(users, other) == FindUser(old(users), other)
    {
      RemoveEffect(users, UserId, id);
      users := RemoveFirst(users, KeyIs(UserId, id));
    }
  }

  /** Re-saving a user under the same name changes what a login by name finds
      only where it found that user. */
  lemma LoginAfterReplace(users: seq<User>, id: string, u: User, name: string)
    requires UniqueKeys(users, UserId) && u.Id == id
    requires FindUser(users, id).Some? && FindUser(users, id).value.Username == u.Username
    ensures FindByUsername(ReplaceFirst(users, KeyIs(UserId, id), u), name) ==
      if FindByUsername(users, name).Some? && FindByUsername(users, name).value.Id == id then Some(u)
      else FindByUsername(users, name)
  {
    ReplaceOtherKey(users, UserId, id, u, UserName, name);
  }

  class UserService {
    const userRepository: UserRepository
    /** `HashPassword`. */
    const hash: string -> string

    constructor (userRepository: UserRepository, hash: string -> string)
      ensures this.userRepository == userRepository && this.hash == hash
    {
      this.userRepository := userRepository;
      this.hash := hash;
    }

    /** `CreateUserAsync`: the role whitelist first, then the username check;
        the stored user carries the password's hash. A newly created active
        user can log in with that password. */
    method CreateUser(user: User, password: string, generatedId: string) returns (r: Result<User>)
      requires userRepository.Valid()
      requires generatedId != "" && FindUser(userRepository.users, generatedId).None?
      modifies userRepository
      ensures userRepository.Valid()
      ensures !IsValidRole(user.Role) ==> r == Err(ArgumentException(InvalidRole))
      ensures IsValidRole(user.Role) && FindByUsername(old(userRepository.users), user.Username).Some? ==>
        r == Err(InvalidOperationException(UsernameTaken))
      ensures r.Err? ==> userRepository.users == old(userRepository.users)
      ensures r.Ok? ==>
        IsValidRole(user.Role) && FindByUsername(old(userRepository.users), user.Username).None? &&
        r.value == user.(Id := r.value.Id, PasswordHash := hash(password)) &&
        userRepository.users == old(userRepository.users) + [r.value] &&
        (user.IsActive ==> Authenticate(userRepository.users, hash, user.Username, password))
      ensures IsValidRole(user.Role) && FindByUsername(old(userRepository.users), user.Username).None? ==>
        var id := if user.Id == "" then generatedId else user.Id;
        if FindUser(old(userRepository.users), id).Some? then
          r == Err(Database(DuplicateKey))
        else
          r == Ok(user.(Id := id, PasswordHash := hash(password)))
    {
      if !IsValidRole(user.Role) {
        return Err(ArgumentException(InvalidRole));
      }
      if FindByUsername(userRepository.users, user.Username).Some? {
        return Err(InvalidOperationException(UsernameTaken));
      }
      var toStore := user.(PasswordHash := hash(password));
      var before := userRepository.users;
      r := userRepository.Create(toStore, generatedId);
      if r.Ok? {
        LookupAppendFresh(before, UserName, r.value);
      }
    }

    /** `UpdateUserAsync`: the user must exist; the stored hash is kept
        whatever hash the new record carries. */
    method UpdateUser(id: string, user: User) returns (r: Result<User>)
      requires userRepository.Valid() && user.Id == id
      modifies userRepository
      ensures userRepository.Valid()
      ensures FindUser(old(userRepository.users), id).None? ==>
        r == Err(ArgumentException(UserNotFound)) && userRepository.users == old(userRepository.users)
      ensures FindUser(old(userRepository.users), id).Some? ==>
        r == Ok(user.(PasswordHash := FindUser(old(userRepository.users), id).value.PasswordHash)) &&
        FindUser(userRepository.users, id) == Some(r.value) &&
        forall other :: other != id ==>
          FindUser(userRepository.users, other) == FindUser(old(userRepository.users), other)
    {
      var existing := FindUser(userRepository.users, id);
      if existing.None? {
        return Err(ArgumentException(UserNotFound));
      }
      var toStore := user.(PasswordHash := existing.value.PasswordHash);
      userRepository.Update(id, toStore);
      r := Ok(toStore);
    }

    /** `DeleteUserAsync`. */
    method DeleteUser(id: string) returns (r: Result<bool>)
      requires userRepository.Valid()
      modifies userRepository
      ensures userRepository.Valid()
      ensures FindUser(old(userRepository.users), id).None? ==>
        r == Err(ArgumentException(UserNotFound)) && userRepository.users == old(userRepository.users)
      ensures FindUser(old(userRepository.users), id).Some? ==>
        r == Ok(true) && FindUser(userRepository.users, id).None? &&
        |userRepository.users| == |old(userRepository.users)| - 1 &&
        forall other :: other != id ==>
          FindUser(userRepository.users, other) == FindUser(old(userRepository.users), other)
    {
      var existing := FindUser(userRepository.users, id);
      if existing.None? {
        return Err(ArgumentException(UserNotFound));
      }
      RemoveEffect(userRepository.users, UserId, id);
      userRepository.Delete(id);
      r := Ok(true);
    }

    /** `ChangePasswordAsync`: the current password must hash to the stored
        hash; then the new password's hash is stored. An active user whom a
        login by name finds can then log in with the new password. */
    method ChangePassword(userId: string, currentPassword: string, newPassword: string) returns (r: Result<bool>)
      requires userRepository.Valid()
      modifies userRepository
      ensures userRepository.Valid()
      ensures FindUser(old(userRepository.users), userId).None? ==>
        r == Err(ArgumentException(UserNotFound))
      ensures FindUser(old(userRepository.users), userId).Some? ==>
        var u := FindUser(old(userRepository.users), userId).value;
        if hash(currentPassword) != u.PasswordHash then
          r == Err(InvalidOperationException(WrongPassword))
        else
          r == Ok(true) &&
          FindUser(userRepository.users, userId) == Some(u.(PasswordHash := hash(newPassword))) &&
          (FindByUsername(old(userRepository.users), u.Username) == Some(u) && u.IsActive ==>
            Authenticate(userRepository.users, hash, u.Username, newPassword))
      ensures r.Err? ==> userRepository.users == old(userRepository.users)
      ensures r.Ok? ==> forall other :: other != userId ==>
        FindUser(userRepository.users, other) == FindUser(old(userRepository.users), other)
    {
      var user := FindUser(userRepository.users, userId);
      if user.None? {
        return Err(ArgumentException(UserNotFound));
      }
      if hash(currentPassword) != user.value.PasswordHash {
        return Err(InvalidOperationException(WrongPassword));
      }
      var updated := user.value.(PasswordHash := hash(newPassword));
      LoginAfterReplace(userRepository.users, userId, updated, updated.Username);
      userRepository.Update(userId, updated);
      r := Ok(true);
    }

    /** `CreateStationOperatorAsync`: a fresh username gets an active
        StationOperator account that can log in with the given password. */
    method CreateStationOperator(username: string, password: string, email: string, now: Instant, generatedId: string)
      returns (r: Result<User>)
      requires userRepository.Valid()
      requires generatedId != "" && FindUser(userRepository.users, generatedId).None?
      modifies userRepository
      ensures userRepository.Valid()
      ensures FindByUsername(old(userRepository.users), username).Some? ==>
        r == Err(InvalidOperationException(UsernameTaken)) && userRepository.users == old(userRepository.users)
      ensures FindByUsername(old(userRepository.users), username).None? ==>
        r == Ok(User(generatedId, username, hash(password), StationOperator, email, true, now)) &&
        userRepository.users == old(userRepository.users) + [r.value] &&
        Authenticate(userRepository.users, hash, username, password)
    {
      if FindByUsername(userRepository.users, username).Some? {
        return Err(InvalidOperationException(UsernameTaken));
      }
      var user := User("", username, hash(password), StationOperator, email, true, now);
      var before := userRepository.users;
      r := userRepository.Create(user, generatedId);
      LookupAppendFresh(before, UserName, r.value);
    }

    /** `DeactivateUserAsync` / `ActivateUserAsync`: `false` for an unknown id;
        otherwise the flag is set and nothing else about the user changes. */
    method SetUserActive(userId: string, active: bool) returns (r: bool)
      requires userRepository.Valid()
      modifies userRepository
      ensures userRepository.Valid()
      ensures r <==> FindUser(old(userRepository.users), userId).Some?
      ensures !r ==> userRepository.users == old(userRepository.users)
      ensures r ==>
        var u := FindUser(old(userRepository.users), userId).value;
        FindUser(userRepository.users, userId) == Some(u.(IsActive := active)) &&
        (forall other :: other != userId ==>
          FindUser(userRepository.users, other) == FindUser(old(userRepository.users), other)) &&
        (!active && FindByUsername(old(userRepository.users), u.Username) == Some(u) ==>
          forall password :: !Authenticate(userRepository.users, hash, u.Username, password))
    {
      var user := FindUser(userRepository.users, userId);
      if user.None? {
        return false;
      }
      var updated := user.value.(IsActive := active);
      LoginAfterReplace(userRepository.users, userId, updated, updated.Username);
      userRepository.Update(userId, updated);
      r := true;
    }

    /** `DeactivateUserAsync`. */
    method DeactivateUser(userId: string) returns (r: bool)
      requires userRepository.Valid()
      modifies userRepository
      ensures userRepository.Valid()
      ensures r <==> FindUser(old(userRepository.users), userId).Some?
      ensures !r ==> userRepository.users == old(userRepository.users)
      ensures r ==>
        FindUser(userRepository.users, userId) ==
        Some(FindUser(old(userRepository.users), userId).value.(IsActive := false))
      ensures r ==> forall other :: other != userId ==>
        FindUser(userRepository.users, other) == FindUser(old(userRepository.users), other)
    {
      r := SetUserActive(userId, false);
    }

    /** `ActivateUserAsync`. */
    method ActivateUser(userId: string) returns (r: bool)
      requires userRepository.Valid()
      modifies userRepository
      ensures userRepository.Valid()
      ensures r <==> FindUser(old(userRepository.users), userId).Some?
      ensures !r ==> userRepository.users == old(userRepository.users)
      ensures r ==>
        FindUser(userRepository.users, userId) ==
        Some(FindUser(old(userRepository.users), userId).value.(IsActive := true))
      ensures r ==> forall other :: other != userId ==>
        FindUser(userRepository.users, other) == FindUser(old(userRepository.users), other)
    {
      r := SetUserActive(userId, true);
    }
  }
}
