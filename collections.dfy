/**
 * The persistent user repository of 3_ecosystem/3_5_collections/src/main.rs:
 * users by id and ids by name in two maps, with lookups by one id, by a
 * slice of ids and by a substring of the name.
 */
module UserCollections {
  import opened Wrappers

  type UserId = x: int | 0 <= x < 0x1_0000_0000_0000_0000

  datatype User = User(id: UserId, name: string)

  /** `str::contains`: `sub` occurs in `s`, tried at each position from the left. */
  function Contains(s: string, sub: string): bool
    decreases |s|
  {
    if |sub| <= |s| && s[..|sub|] == sub then true
    else if s == [] then false
    else Contains(s[1..], sub)
  }

  /** `sub` occurs in `s` at some position. */
  predicate OccursAt(s: string, sub: string, i: int) {
    0 <= i && i + |sub| <= |s| && s[i..i + |sub|] == sub
  }

  /** The scan of Contains finds `sub` exactly when it occurs somewhere. */
  lemma {:induction false} ContainsOccurs(s: string, sub: string)
    ensures Contains(s, sub) <==> exists i :: OccursAt(s, sub, i)
    decreases |s|
  {
    if |sub| <= |s| && s[..|sub|] == sub {
      assert OccursAt(s, sub, 0);
    } else if s == [] {
    } else {
      ContainsOccurs(s[1..], sub);
      if exists i :: OccursAt(s[1..], sub, i) {
        var i :| OccursAt(s[1..], sub, i);
        assert s[i + 1..i + 1 + |sub|] == s[1..][i..i + |sub|];
        assert OccursAt(s, sub, i + 1);
      }
      if exists i :: OccursAt(s, sub, i) {
        var i :| OccursAt(s, sub, i);
        assert i != 0 by {
          assert s[0..|sub|] == s[..|sub|];
        }
        var t := s[1..];
        assert 0 <= i - 1 && i - 1 + |sub| <= |t|;
        assert t[i - 1..i - 1 + |sub|] == s[i..i + |sub|];
        assert OccursAt(t, sub, i - 1);
      }
    }
  }

  predicate Sorted(ids: seq<UserId>) {
    forall i, j :: 0 <= i < j < |ids| ==> ids[i] <= ids[j]
  }

  /**
   * `slice::binary_search` on `ids[left..right]`: halve the range around its
   * middle element until that element is `k` (Ok) or the range is empty
   * (Err with the insertion point).
   */
  function BinarySearchFrom(ids: seq<UserId>, k: UserId, left: nat, right: nat): (r: Result<nat, nat>)
    requires left <= right <= |ids|
    ensures r.Ok? ==> left <= r.value < right && ids[r.value] == k
    decreases right - left
  {
    if left >= right then Err(left)
    else
      var mid := left + (right - left) / 2;
      if ids[mid] < k then BinarySearchFrom(ids, k, mid + 1, right)
      else if ids[mid] > k then BinarySearchFrom(ids, k, left, mid)
      else Ok(mid)
  }

  function BinarySearch(ids: seq<UserId>, k: UserId): Result<nat, nat> {
    BinarySearchFrom(ids, k, 0, |ids|)
  }

  /** On sorted ids the search over a range holding `k` at `i` succeeds. */
  lemma {:induction false} BinarySearchFromComplete(ids: seq<UserId>, k: UserId, left: nat, right: nat, i: nat)
    requires left <= i < right <= |ids| && Sorted(ids) && ids[i] == k
    ensures BinarySearchFrom(ids, k, left, right).Ok?
    decreases right - left
  {
    var mid := left + (right - left) / 2;
    assert i <= mid ==> ids[i] <= ids[mid];
    assert mid <= i ==> ids[mid] <= ids[i];
    if ids[mid] < k {
      BinarySearchFromComplete(ids, k, mid + 1, right, i);
    } else if ids[mid] > k {
      BinarySearchFromComplete(ids, k, left, mid, i);
    }
  }

  /** On sorted ids the search succeeds exactly when `k` is in the searched range. */
  lemma BinarySearchFromSorted(ids: seq<UserId>, k: UserId, left: nat, right: nat)
    requires left <= right <= |ids| && Sorted(ids)
    ensures BinarySearchFrom(ids, k, left, right).Ok? <==> exists i :: left <= i < right && ids[i] == k
  {
    var r := BinarySearchFrom(ids, k, left, right);
    if r.Ok? {
      assert left <= r.value < right && ids[r.value] == k;
    }
    if exists i :: left <= i < right && ids[i] == k {
      var i :| left <= i < right && ids[i] == k;
      BinarySearchFromComplete(ids, k, left, right, i);
    }
  }

  /** The search succeeds only on an id of the slice, and on a sorted slice on every one. */
  lemma BinarySearchFinds(ids: seq<UserId>, k: UserId)
    ensures BinarySearch(ids, k).Ok? ==> k in ids
    ensures Sorted(ids) ==> (BinarySearch(ids, k).Ok? <==> k in ids)
  {
    if Sorted(ids) {
      BinarySearchFromSorted(ids, k, 0, |ids|);
    }
  }

  /** What users_by_ids keeps of the users: those whose id the search over `ids` finds. */
  function Retained(users: map<UserId, User>, ids: seq<UserId>): map<UserId, User> {
    map k | k in users && BinarySearch(ids, k).Ok? :: users[k]
  }

  /**
   * The users kept are stored users whose id is in `ids`; when `ids` is
   * sorted they are all the stored users whose id is in `ids`.
   */
  lemma RetainedUsers(users: map<UserId, User>, ids: seq<UserId>)
    ensures forall k :: k in Retained(users, ids) ==> k in users && k in ids && Retained(users, ids)[k] == users[k]
    ensures Sorted(ids) ==> forall k :: k in Retained(users, ids) <==> k in users && k in ids
  {
    forall k | k in users {
      BinarySearchFinds(ids, k);
    }
  }

  /** `x` put into the sorted `s` before the first element not smaller than it. */
  function InsertSorted(x: UserId, s: seq<UserId>): seq<UserId> {
    if s == [] || x <= s[0] then [x] + s else [s[0]] + InsertSorted(x, s[1..])
  }

  /** Insertion adds exactly `x`. */
  lemma {:induction false} InsertSortedMultiset(x: UserId, s: seq<UserId>)
    ensures multiset(InsertSorted(x, s)) == multiset(s) + multiset{x}
  {
    if s != [] && x > s[0] {
      InsertSortedMultiset(x, s[1..]);
      assert s == [s[0]] + s[1..];
    }
  }

  /** Inserting an id no smaller than a lower bound of `s` keeps the bound. */
  lemma {:induction false} InsertSortedBounded(x: UserId, s: seq<UserId>, b: UserId)
    requires b <= x && forall k :: 0 <= k < |s| ==> b <= s[k]
    ensures forall k :: 0 <= k < |InsertSorted(x, s)| ==> b <= InsertSorted(x, s)[k]
  {
    if s != [] && x > s[0] {
      InsertSortedBounded(x, s[1..], b);
    }
  }

  /** Insertion keeps a sorted sequence sorted. */
  lemma {:induction false} InsertSortedOrder(x: UserId, s: seq<UserId>)
    requires Sorted(s)
    ensures Sorted(InsertSorted(x, s))
  {
    if s != [] && x > s[0] {
      InsertSortedOrder(x, s[1..]);
      InsertSortedBounded(x, s[1..], s[0]);
    }
  }

  /** `slice::sort` on a copy of the ids: the same ids in ascending order. */
  function SortedCopy(ids: seq<UserId>): (r: seq<UserId>)
    ensures Sorted(r) && multiset(r) == multiset(ids)
  {
    if ids == [] then []
    else
      var rest := SortedCopy(ids[1..]);
      InsertSortedOrder(ids[0], rest);
      InsertSortedMultiset(ids[0], rest);
      assert ids == [ids[0]] + ids[1..];
      InsertSorted(ids[0], rest)
  }

  /** Searching the sorted copy, as users_by_ids evidently intends, keeps exactly the stored users whose id is in `ids`. */
  lemma RetainedSortedCopy(users: map<UserId, User>, ids: seq<UserId>)
    ensures forall k :: k in Retained(users, SortedCopy(ids)) <==> k in users && k in ids
    ensures forall k :: k in Retained(users, SortedCopy(ids)) ==> Retained(users, SortedCopy(ids))[k] == users[k]
  {
    var sorted := SortedCopy(ids);
    RetainedUsers(users, sorted);
    forall k
      ensures k in sorted <==> k in ids
    {
      assert k in sorted <==> k in multiset(sorted);
      assert k in ids <==> k in multiset(ids);
    }
  }

  /** The two searches over the unsorted ids [3, 1]: 1 is found at index 1, and 3 is missed. */
  lemma UnsortedSearches(ids: seq<UserId>)
    requires ids == [3, 1]
    ensures BinarySearch(ids, 1) == Ok(1) && BinarySearch(ids, 3) == Err(2)
  {
  }

  /**
   * users_by_ids as written searches the unsorted `ids`: with users 1 and 3
   * and ids [3, 1] the search for 3 looks at index 1, sees 1 < 3 and gives
   * up, so user 3 is dropped; the search of the sorted copy keeps it.
   */
  lemma UnsortedIdsDropUser(users: map<UserId, User>, ids: seq<UserId>)
    requires users == map[1 := User(1, "user1"), 3 := User(3, "user3")] && ids == [3, 1]
    ensures BinarySearch(ids, 3).Err?
    ensures Retained(users, ids) == map[1 := User(1, "user1")]
    ensures 3 in Retained(users, SortedCopy(ids))
  {
    UnsortedSearches(ids);
    assert Retained(users, ids).Keys == {1};
    RetainedSortedCopy(users, ids);
    assert 3 in ids;
  }

  /** The names among the keys of `nameToId` that contain `sub`. */
  function MatchingNames(nameToId: map<string, UserId>, sub: string): set<string> {
    set n | n in nameToId && Contains(n, sub)
  }

  /**
   * `ids` holds the id of each name of `matching` exactly once: `names`
   * lists every name of `matching`, without repeats, and `ids[i]` is the id
   * of `names[i]`.
   */
  ghost predicate OnePerName(ids: seq<UserId>, names: seq<string>, nameToId: map<string, UserId>, matching: set<string>) {
    && |names| == |ids|
    && (forall i :: 0 <= i < |ids| ==> names[i] in matching && names[i] in nameToId && ids[i] == nameToId[names[i]])
    && (forall i, j :: 0 <= i < j < |names| ==> names[i] != names[j])
    && (forall n :: n in matching ==> n in names)
  }

  class UsersRepository {
    var users: map<UserId, User>
    var nameToId: map<string, UserId>

    /** Every name maps to a stored user, and every user is stored under its own id with its name registered. */
    predicate Valid()
      reads this
    {
      && nameToId.Values <= users.Keys
      && (forall id :: id in users ==> users[id].id == id && users[id].name in nameToId)
    }

    /** UsersRepositotyImpl::new: both maps empty. */
    constructor ()
      ensures Valid() && users == map[] && nameToId == map[]
    {
      users := map[];
      nameToId := map[];
    }

    /** The derived Clone: a repository of its own with the same maps. */
    method Clone() returns (r: UsersRepository)
      ensures fresh(r) && r.users == users && r.nameToId == nameToId
    {
      r := new UsersRepository();
      r.users := users;
      r.nameToId := nameToId;
    }

    /** add_user: the name now maps to the id and the id to the user, overwriting earlier entries. */
    method AddUser(user: User)
      requires Valid()
      modifies this
      ensures Valid()
      ensures nameToId == old(nameToId)[user.name := user.id]
      ensures users == old(users)[user.id := user]
    {
      nameToId := nameToId[user.name := user.id];
      users := users[user.id := user];
    }

    /** user_by_id; in a valid repository the user found carries the id asked for and a registered name. */
    function UserById(id: UserId): (r: Option<User>)
      reads this
      ensures r.Some? <==> id in users
      ensures r.Some? ==> r.value == users[id]
      ensures Valid() && r.Some? ==> r.value.id == id && r.value.name in nameToId
    {
      if id in users then Some(users[id]) else None
    }

    /** users_by_ids: a copy of the users, retaining those whose id the search over `ids` finds. */
    method UsersByIds(ids: seq<UserId>) returns (res: map<UserId, User>)
      ensures res == Retained(users, ids)
    {
      res := users;
      var todo := users.Keys;
      while todo != {}
        invariant todo <= users.Keys && res.Keys <= users.Keys
        invariant forall k :: k in todo ==> k in res
        invariant forall k :: k in res ==> res[k] == users[k]
        invariant forall k :: k in users && k !in todo ==> (k in res <==> BinarySearch(ids, k).Ok?)
        decreases todo
      {
        var k :| k in todo;
        if BinarySearch(ids, k).Err? {
          res := res - {k};
        }
        todo := todo - {k};
      }
    }

    /** users_by_ids as evidently intended: the search runs over the sorted copy the source builds. */
    method UsersByIdsCorrected(ids: seq<UserId>) returns (res: map<UserId, User>)
      ensures forall k :: k in res <==> k in users && k in ids
      ensures forall k :: k in res ==> res[k] == users[k]
    {
      var sortedIds := SortedCopy(ids);
      res := UsersByIds(sortedIds);
      RetainedSortedCopy(users, ids);
    }

    /**
     * ids_by_name_substring: the ids of the names that contain `sub`, one
     * per name and in no particular order, so an id appears once for each
     * of its names. The ghost `names` lists those names in the order their
     * ids are returned: each matching name exactly once.
     */
    method IdsByNameSubstring(sub: string) returns (r: seq<UserId>, ghost names: seq<string>)
      ensures forall id :: id in r <==> exists n :: n in MatchingNames(nameToId, sub) && nameToId[n] == id
      ensures |r| == |MatchingNames(nameToId, sub)|
      ensures OnePerName(r, names, nameToId, MatchingNames(nameToId, sub))
      ensures Valid() ==> forall id :: id in r ==> id in users
    {
      r, names := [], [];
      var todo := nameToId.Keys;
      ghost var done: set<string> := {};
      while todo != {}
        invariant todo <= nameToId.Keys
        invariant done == set n | n in nameToId && n !in todo && Contains(n, sub)
        invariant forall id :: id in r <==> exists n :: n in done && nameToId[n] == id
        invariant |r| == |done| && |names| == |r|
        invariant forall i :: 0 <= i < |r| ==> names[i] in done && r[i] == nameToId[names[i]]
        invariant forall i, j :: 0 <= i < j < |names| ==> names[i] != names[j]
        invariant forall n :: n in done ==> n in names
        decreases todo
      {
        var k :| k in todo;
        if Contains(k, sub) {
          assert k !in done;
          r := r + [nameToId[k]];
          names := names + [k];
          done := done + {k};
        }
        todo := todo - {k};
      }
      assert done == MatchingNames(nameToId, sub);
    }
  }

  /**
   * The tests at lines 75-93: lookup by one id finds each of the three users
   * added, and a repository holding only user 1 has nothing for id 2.
   */
  method LookupScenario() returns (first: Option<User>, second: Option<User>, third: Option<User>, missing: Option<User>)
    ensures first == Some(User(1, "user1")) && second == Some(User(2, "user2")) && third == Some(User(3, "user3"))
    ensures missing == None
  {
    var repository := new UsersRepository();
    repository.AddUser(User(1, "user1"));
    repository.AddUser(User(2, "user2"));
    repository.AddUser(User(3, "user3"));
    first := repository.UserById(1);
    second := repository.UserById(2);
    third := repository.UserById(3);
    var single := new UsersRepository();
    single.AddUser(User(1, "user1"));
    missing := single.UserById(2);
  }

  /** The test at lines 95-107: lookup by the ids [1, 3, 5] finds users 1 and 3 and nothing for 5. */
  method LookupByIdsScenario() returns (found: map<UserId, User>)
    ensures found == map[1 := User(1, "user1"), 3 := User(3, "user3")]
  {
    var repository := new UsersRepository();
    repository.AddUser(User(1, "user1"));
    repository.AddUser(User(2, "user2"));
    repository.AddUser(User(3, "user3"));
    var ids: seq<UserId> := [1, 3, 5];
    found := repository.UsersByIds(ids);
    RetainedExample(repository.users, ids);
  }

  /** What users_by_ids_gets_existing_users keeps of user1..user3 for the ids [1, 3, 5]. */
  lemma RetainedExample(users: map<UserId, User>, ids: seq<UserId>)
    requires users == map[1 := User(1, "user1")][2 := User(2, "user2")][3 := User(3, "user3")]
    requires ids == [1, 3, 5]
    ensures Retained(users, ids) == map[1 := User(1, "user1"), 3 := User(3, "user3")]
  {
    SearchExamples(ids);
    assert Retained(users, ids).Keys == {1, 3};
  }

  /**
   * The modelled search returns at its first probe that hits: on the
   * unsorted ids [9, 5, 3] the first probe, index 1, holds 5. A search
   * without the early return ends at Err(3) there.
   */
  lemma EarlyReturnSearch(ids: seq<UserId>)
    requires ids == [9, 5, 3]
    ensures BinarySearch(ids, 5) == Ok(1)
  {
  }

  /** The searches of users_by_ids_gets_existing_users over [1, 3, 5]. */
  lemma SearchExamples(ids: seq<UserId>)
    requires ids == [1, 3, 5]
    ensures BinarySearch(ids, 1) == Ok(0) && BinarySearch(ids, 3) == Ok(1) && BinarySearch(ids, 2).Err?
  {
  }

  /**
   * The test at lines 127-144: after user 4 is added to a clone, both
   * repositories hold user 3, only the clone holds user 4, and the
   * original finds no name containing "user4".
   */
  method CloneScenario() returns (third: Option<User>, cloneThird: Option<User>, fourth: Option<User>,
                                  cloneFourth: Option<User>, found: seq<UserId>)
    ensures third == cloneThird == Some(User(3, "user3"))
    ensures fourth == None && cloneFourth == Some(User(4, "user4"))
    ensures found == []
  {
    var repository := new UsersRepository();
    repository.AddUser(User(1, "user1"));
    repository.AddUser(User(2, "user2"));
    repository.AddUser(User(3, "user3"));
    var repository2 := repository.Clone();
    repository2.AddUser(User(4, "user4"));
    third, cloneThird := repository.UserById(3), repository2.UserById(3);
    fourth, cloneFourth := repository.UserById(4), repository2.UserById(4);
    found := FindNoUser4(repository);
  }

  /** No string shorter than `sub` contains it. */
  lemma {:induction false} ContainsTooShort(s: string, sub: string)
    requires |s| < |sub|
    ensures !Contains(s, sub)
    decreases |s|
  {
    if s != [] {
      ContainsTooShort(s[1..], sub);
    }
  }

  /** "user1", "user2" and "user3" do not contain "user4". */
  lemma NoUser4(d: char)
    requires d != '4'
    ensures !Contains(['u', 's', 'e', 'r', d], "user4")
  {
    var s := ['u', 's', 'e', 'r', d];
    assert s[..5][4] != "user4"[4];
    ContainsTooShort(s[1..], "user4");
  }

  /** The last query of the test at lines 127-144: the original has no name containing "user4". */
  method FindNoUser4(repository: UsersRepository) returns (found: seq<UserId>)
    requires repository.nameToId == map["user1" := 1, "user2" := 2, "user3" := 3]
    ensures found == []
  {
    NoUser4('1');
    NoUser4('2');
    NoUser4('3');
    assert "user1" == ['u', 's', 'e', 'r', '1'] && "user2" == ['u', 's', 'e', 'r', '2'] && "user3" == ['u', 's', 'e', 'r', '3'];
    assert MatchingNames(repository.nameToId, "user4") == {};
    ghost var matched;
    found, matched := repository.IdsByNameSubstring("user4");
  }

  /** No position of "user1" or "user3" starts "r2"; "user2" has it at position 3. */
  lemma NoR2(d: char)
    requires d != '2'
    ensures !Contains(['u', 's', 'e', 'r', d], "r2")
  {
    var s := ['u', 's', 'e', 'r', d];
    var s1, s2, s3, s4 := s[1..], s[2..], s[3..], s[4..];
    assert s[..2][0] != "r2"[0] && s1[..2][0] != "r2"[0] && s2[..2][0] != "r2"[0];
    assert s3[..2][1] != "r2"[1] && |s4| == 1 && s4[1..] == [];
    assert s1[1..] == s2 && s2[1..] == s3 && s3[1..] == s4;
    assert !Contains(s4, "r2");
    assert !Contains(s3, "r2");
    assert !Contains(s2, "r2");
    assert !Contains(s1, "r2");
  }

  /** The names with "user" in them, and those with "r2", among the three of the tests. */
  lemma NameExamples(names: map<string, UserId>)
    requires names == map["user1" := 1, "user2" := 2, "user3" := 3]
    ensures MatchingNames(names, "user") == {"user1", "user2", "user3"}
    ensures MatchingNames(names, "r2") == {"user2"}
  {
    UserInEveryName(names);
    R2InOneName(names);
  }

  lemma UserInEveryName(names: map<string, UserId>)
    requires names == map["user1" := 1, "user2" := 2, "user3" := 3]
    ensures MatchingNames(names, "user") == {"user1", "user2", "user3"}
  {
    assert "user1"[..4] == "user" && "user2"[..4] == "user" && "user3"[..4] == "user";
  }

  lemma R2InOneName(names: map<string, UserId>)
    requires names == map["user1" := 1, "user2" := 2, "user3" := 3]
    ensures MatchingNames(names, "r2") == {"user2"}
  {
    assert "user2"[1..][1..][1..] == "r2";
    assert Contains("user2", "r2");
    NoR2('1');
    NoR2('3');
    assert "user1" == ['u', 's', 'e', 'r', '1'] && "user3" == ['u', 's', 'e', 'r', '3'];
  }

  /** The first query of the test at lines 109-125: "user" finds the three ids, once each. */
  method FindUsers(repository: UsersRepository) returns (found: seq<UserId>)
    requires repository.nameToId == map["user1" := 1, "user2" := 2, "user3" := 3]
    ensures 1 in found && 2 in found && 3 in found && |found| == 3
  {
    var names := repository.nameToId;
    UserInEveryName(names);
    ghost var matched;
    found, matched := repository.IdsByNameSubstring("user");
    assert names["user1"] == 1 && names["user2"] == 2 && names["user3"] == 3;
  }

  /** The second query of the test at lines 109-125: "r2" finds the id of "user2" alone. */
  method FindR2(repository: UsersRepository) returns (found: seq<UserId>)
    requires repository.nameToId == map["user1" := 1, "user2" := 2, "user3" := 3]
    ensures found == [2]
  {
    var names := repository.nameToId;
    R2InOneName(names);
    ghost var matched;
    found, matched := repository.IdsByNameSubstring("r2");
    assert names["user2"] == 2;
    assert found[0] in found;
  }

  /** The tests at lines 109-125: "user" finds ids 1, 2 and 3 once each, and "r2" finds id 2 alone. */
  method NameSubstringScenario() returns (byUser: seq<UserId>, byR2: seq<UserId>)
    ensures 1 in byUser && 2 in byUser && 3 in byUser && |byUser| == 3
    ensures byR2 == [2]
  {
    var repository := new UsersRepository();
    repository.AddUser(User(1, "user1"));
    repository.AddUser(User(2, "user2"));
    repository.AddUser(User(3, "user3"));
    assert repository.nameToId == map["user1" := 1, "user2" := 2, "user3" := 3];
    byUser := FindUsers(repository);
    byR2 := FindR2(repository);
  }
}
