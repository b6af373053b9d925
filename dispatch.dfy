/**
 * The user repositories of 1_concepts/1_6_dispatch/src/main.rs: a key-value
 * `SomeStorage` of users by name, and a repository over it whose `get` is
 * None on a missing key while `remove` and `update` report the missing key
 * as an error. The statically and the dynamically dispatched repository
 * have the same bodies, so one class stands for both.
 */
module Dispatch {
  import opened Wrappers

  type U64 = x: int | 0 <= x < 0x1_0000_0000_0000_0000

  datatype User = User(id: U64, email: string, activated: bool)

  /** The RepositoryUserNotFound error. */
  datatype RepositoryUserNotFound = RepositoryUserNotFound

  /** SomeStorage: a hash map from user names to users. */
  class SomeStorage {
    var storage: map<string, User>

    /** Default for SomeStorage: user1, user2 and user3, with ids 1 to 3 and activated. */
    constructor Default()
      ensures storage.Keys == {"user1", "user2", "user3"}
      ensures storage["user1"] == User(1, "email1@example.com", true)
      ensures storage["user2"] == User(2, "email2@example.com", true)
      ensures storage["user3"] == User(3, "email3@example.com", true)
    {
      storage := map[
        "user1" := User(1, "email1@example.com", true),
        "user2" := User(2, "email2@example.com", true),
        "user3" := User(3, "email3@example.com", true)];
    }

    /** Storage::set: insert, replacing any user under the key. */
    method Set(key: string, val: User)
      modifies this
      ensures storage == old(storage)[key := val]
    {
      storage := storage[key := val];
    }

    /** Storage::get. */
    function Get(key: string): (r: Option<User>)
      reads this
      ensures r.Some? <==> key in storage
      ensures r.Some? ==> r.value == storage[key]
    {
      if key in storage then Some(storage[key]) else None
    }

    /** Storage::remove: the user that was under the key, which is then gone. */
    method Remove(key: string) returns (r: Option<User>)
      modifies this
      ensures r == old(Get(key))
      ensures storage == old(storage) - {key}
    {
      r := Get(key);
      storage := storage - {key};
    }
  }

  /** UserRepositoryStatic and UserRepositoryDynamic: the storage behind a `RefCell`. */
  class UserRepository {
    const storage: SomeStorage

    constructor (storage: SomeStorage)
      ensures this.storage == storage
    {
      this.storage := storage;
    }

    /** UserRepository::set. */
    method Set(key: string, val: User)
      modifies storage
      ensures storage.storage == old(storage.storage)[key := val]
    {
      storage.Set(key, val);
    }

    /** UserRepository::get: a copy of the stored user with its id, e-mail and activated flag. */
    function Get(key: string): (r: Option<User>)
      reads storage
      ensures r.Some? <==> key in storage.storage
      ensures r.Some? ==> r.value.id == storage.storage[key].id
      ensures r.Some? ==> r.value.email == storage.storage[key].email
      ensures r.Some? ==> r.value.activated == storage.storage[key].activated
    {
      match storage.Get(key)
      case None => None
      case Some(raw) => Some(User(raw.id, raw.email, raw.activated))
    }

    /** UserRepository::remove: Ok and the key gone when it was there, the error and no change when not. */
    method Remove(key: string) returns (r: Result<Unit, RepositoryUserNotFound>)
      modifies storage
      ensures r.Ok? <==> key in old(storage.storage)
      ensures storage.storage == old(storage.storage) - {key}
    {
      var removed := storage.Remove(key);
      if removed.None? {
        return Err(RepositoryUserNotFound);
      }
      return Ok(Unit);
    }

    /**
     * UserRepository::update: a missing key is the error and the storage
     * stays as it was; a present key gets a copy of the new user.
     */
    method Update(key: string, val: User) returns (r: Result<Unit, RepositoryUserNotFound>)
      modifies storage
      ensures r.Ok? <==> key in old(storage.storage)
      ensures r.Err? ==> storage.storage == old(storage.storage)
      ensures r.Ok? ==> storage.storage == old(storage.storage)[key := val]
      ensures storage.storage.Keys == old(storage.storage.Keys)
    {
      if storage.Get(key).None? {
        return Err(RepositoryUserNotFound);
      }
      var raw := User(val.id, val.email, val.activated);
      storage.Set(key, raw);
      return Ok(Unit);
    }
  }

  /**
   * check_static and check_dynamic: the same calls on a repository over the
   * default storage. Removing and updating a present user succeed, the same
   * calls for the missing "user5" fail, and user1, user3 and user4 are left.
   */
  method CheckScenario()
      returns (third: Option<User>, removed: Result<Unit, RepositoryUserNotFound>, removedMissing: Result<Unit, RepositoryUserNotFound>,
               updated: Result<Unit, RepositoryUserNotFound>, updatedMissing: Result<Unit, RepositoryUserNotFound>,
               fourth: Option<User>, keys: set<string>)
    ensures third == Some(User(3, "email3@example.com", true))
    ensures removed.Ok? && removedMissing.Err? && updated.Ok? && updatedMissing.Err?
    ensures fourth == Some(User(6, "email2@example.com", false))
    ensures keys == {"user1", "user3", "user4"}
  {
    var some := new SomeStorage.Default();
    var repository := new UserRepository(some);
    repository.Set("user4", User(4, "email4@example.com", false));
    third := repository.Get("user3");
    removed := repository.Remove("user2");
    removedMissing := repository.Remove("user5");
    updated := repository.Update("user4", User(6, "email2@example.com", false));
    fourth := repository.Get("user4");
    updatedMissing := repository.Update("user5", User(6, "email2@example.com", false));
    keys := repository.storage.storage.Keys;
  }
}
