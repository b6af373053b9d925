/**
 * The repository of 1_concepts/1_7_sized/src/repository.rs, a plain
 * key-value store of users whose `remove` hands back the removed user, and
 * the CreateUser command handler of 1_concepts/1_7_sized/src/main.rs that
 * writes into it.
 */
module SizedRepository {
  import opened Wrappers

  type U64 = x: int | 0 <= x < 0x1_0000_0000_0000_0000

  datatype User = User(id: U64, email: string, activated: bool) {

    /** User::new: the fields as given. */
    static function New(id: U64, email: string, activated: bool): (u: User)
      ensures u.id == id && u.email == email && u.activated == activated
    {
      User(id, email, activated)
    }
  }

  /** SomeStorage: a hash map from user names to users. */
  class SomeStorage {
    var storage: map<string, User>

    constructor Default()
      ensures storage.Keys == {"user1", "user2", "user3"}
      ensures storage["user1"] == User(1, "email1@example.com", true)
      ensures storage["user2"] == User(2, "email2@example.com", true)
      ensures storage["user3"] == User(3, "email3@example.com", true)
    {
      storage := map[
        "user1" := User(1, "email1@example.com", true),
        "user2" := User(2, "email2@example.com", true),
        "user3" := User(3, "email3@example.com", true)];
    }

    /** Storage::set: insert, keeping every other key as it was. */
    method Set(key: string, val: User)
      modifies this
      ensures storage == old(storage)[key := val]
    {
      storage := storage[key := val];
    }

    /** Storage::get, the same body as the dispatch crate's own copy of `SomeStorage`. */
    function Get(key: string): (r: Option<User>)
      reads this
      ensures r.Some? <==> key in storage
      ensures r.Some? ==> r.value == storage[key]
    {
      if key in storage then Some(storage[key]) else None
    }

    /** Storage::remove: the previous user under the key, None and no change when there was none. */
    method Remove(key: string) returns (r: Option<User>)
      modifies this
      ensures r.Some? <==> key in old(storage)
      ensures r.Some? ==> r.value == old(storage)[key]
      ensures storage == old(storage) - {key}
    {
      r := Get(key);
      storage := storage - {key};
    }
  }

  /** UserRepositoryStatic: owns its storage and forwards to it. */
  class UserRepositoryStatic {
    const storage: SomeStorage

    constructor (storage: SomeStorage)
      ensures this.storage == storage
    {
      this.storage := storage;
    }

    method Set(key: string, val: User)
      modifies storage
      ensures storage.storage == old(storage.storage)[key := val]
    {
      storage.Set(key, val);
    }

    function Get(key: string): (r: Option<User>)
      reads storage
      ensures r.Some? <==> key in storage.storage
      ensures r.Some? ==> r.value == storage.storage[key]
    {
      storage.Get(key)
    }

    method Remove(key: string) returns (r: Option<User>)
      modifies storage
      ensures r.Some? <==> key in old(storage.storage)
      ensures r.Some? ==> r.value == old(storage.storage)[key]
      ensures storage.storage == old(storage.storage) - {key}
    {
      r := storage.Remove(key);
    }
  }

  /** The CreateUser command: the name to register the user under. */
  datatype CreateUser = CreateUser(username: string)

  /**
   * handle_command for CreateUser: store a copy of the user under the
   * command's name and succeed; nothing else of the repository changes.
   */
  method HandleCommand(user: User, cmd: CreateUser, ctx: UserRepositoryStatic) returns (r: Result<Unit, Unit>)
    modifies ctx.storage
    ensures r.Ok?
    ensures ctx.storage.storage == old(ctx.storage.storage)[cmd.username := user]
  {
    ctx.Set(cmd.username, user);
    return Ok(Unit);
  }

  /** check_static: set user4, read user3, remove user2. */
  method CheckStaticScenario() returns (third: Option<User>, removed: Option<User>, fourth: Option<User>, keys: set<string>)
    ensures third == Some(User(3, "email3@example.com", true))
    ensures removed == Some(User(2, "email2@example.com", true))
    ensures fourth == Some(User(4, "email4@example.com", false))
    ensures keys == {"user1", "user3", "user4"}
  {
    var some := new SomeStorage.Default();
    var repository := new UserRepositoryStatic(some);
    repository.Set("user4", User(4, "email4@example.com", false));
    third := repository.Get("user3");
    removed := repository.Remove("user2");
    keys := repository.storage.storage.Keys;
    fourth := repository.Get("user4");
  }

  /** The test of the command handler: Ok, and the user stored under "user" with its fields. */
  method HandleCommandScenario() returns (res: Result<Unit, Unit>, stored: Option<User>)
    ensures res.Ok? && stored == Some(User(0, "", true))
  {
    var some := new SomeStorage.Default();
    var repository := new UserRepositoryStatic(some);
    var user := User.New(0, "", true);
    res := HandleCommand(user, CreateUser("user"), repository);
    stored := repository.Get("user");
  }
}
