/** UserService: the current user behind the request's token, and the user
    table. The token storage, the password encoder and the database are
    outside the model: the token is the user it carries or None, the
    encoder an arbitrary function, the table a map from id to user. */
module Users {
  import opened Common
  import opened Entity

  /** Some stored user has this username (`findOneBy(['username' => …])`
      finds a row). */
  predicate Registered(users: map<int, User>, username: string)
  {
    exists k | k in users :: users[k].username == username
  }

  class UserService {
    var users: map<int, User>
    var nextId: int
    var token: Option<User>
    /** `encodePassword`, applied to the username and the plain password. */
    const encoder: (string, string) -> string

    /** Ids are the map's keys and below the next auto-increment value, and
        usernames are unique (the table's unique index on `username`). */
    ghost predicate Valid()
      reads this
    {
      && nextId >= 1
      && (forall k | k in users :: users[k].id == k && 1 <= k < nextId)
      && (forall j, k | j in users && k in users :: users[j].username == users[k].username ==> j == k)
    }

    constructor(encoder: (string, string) -> string, token: Option<User>)
      ensures Valid() && users == map[] && nextId == 1
      ensures this.token == token && this.encoder == encoder
    {
      users, nextId := map[], 1;
      this.token, this.encoder := token, encoder;
    }

    /** `getCurrentUser`: the token's user, or an invalid-token failure
        when the storage holds no token. */
    method GetCurrentUser() returns (r: Result<User>)
      ensures r.Ok? <==> token.Some?
      ensures r.Ok? ==> r.value == token.value
      ensures r.Err? ==> r.error == InvalidToken
    {
      if token.Some? {
        return Ok(token.value);
      } else {
        return Err(InvalidToken);
      }
    }

    /** `hasUser`: an empty username is an invalid argument; otherwise
        whether some stored user has that username. */
    method HasUser(username: string) returns (r: Result<bool>)
      ensures EmptyString(username) ==> r == Err(InvalidArgument("username"))
      ensures !EmptyString(username) ==> r.Ok? && (r.value <==> Registered(users, username))
    {
      if EmptyString(username) {
        return Err(InvalidArgument("username"));
      }
      var found := exists k | k in users :: users[k].username == username;
      return Ok(found);
    }

    /** `createUser`: the username is checked before the password; a valid
        pair is stored under the next id with the encoded password. The
        service does not look for an existing user itself: the flush fails
        on the unique index when the username is taken. */
    method CreateUser(username: string, password: string) returns (r: Result<User>)
      requires Valid()
      modifies this
      ensures Valid() && token == old(token)
      ensures EmptyString(username) ==> r == Err(InvalidArgument("username"))
      ensures !EmptyString(username) && EmptyString(password) ==> r == Err(InvalidArgument("password"))
      ensures !EmptyString(username) && !EmptyString(password) && Registered(old(users), username) ==>
        r == Err(StorageFailure)
      ensures r.Ok? <==>
        !EmptyString(username) && !EmptyString(password) && !Registered(old(users), username)
      ensures r.Err? ==> users == old(users) && nextId == old(nextId)
      ensures r.Ok? ==> r.value == User(old(nextId), username, encoder(username, password))
      ensures r.Ok? ==> users == old(users)[old(nextId) := r.value] && nextId == old(nextId) + 1
      ensures r.Ok? ==> Registered(users, username)
    {
      if EmptyString(username) {
        return Err(InvalidArgument("username"));
      } else if EmptyString(password) {
        return Err(InvalidArgument("password"));
      }
      var user := User(nextId, username, encoder(username, password));
      if exists k | k in users :: users[k].username == username {
        return Err(StorageFailure);
      }
      users := users[nextId := user];
      assert users[user.id].username == username;
      nextId := nextId + 1;
      return Ok(user);
    }
  }

  /** A user created with a fresh username is then found by `hasUser`,
      and a second creation under the same username fails. */
  method CreateThenHas(service: UserService, username: string, password: string)
      returns (created: Result<User>, has: Result<bool>, again: Result<User>)
    requires service.Valid()
    requires !EmptyString(username) && !EmptyString(password)
    requires !Registered(service.users, username)
    modifies service
    ensures service.Valid()
    ensures created.Ok? && created.value.username == username
    ensures has == Ok(true)
    ensures again == Err(StorageFailure)
  {
    created := service.CreateUser(username, password);
    has := service.HasUser(username);
    again := service.CreateUser(username, password);
  }
}
