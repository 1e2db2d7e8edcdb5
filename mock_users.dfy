/**
  The in-memory user repository used by the tests (tests/mock_user_repo.go).

  Users are objects, as `*model.User` is in Go: Put changes the caller's user
  in place and stores that same object, so a later lookup returns it. The
  map is keyed by the lower-cased user name, which makes lookups
  case-insensitive. A test can inject an error that every operation returns.
*/
module MockUsers {
  import opened Results

  datatype Error =
    | ErrNotFound              // model.ErrNotFound
    | Injected(reason: string) // the error a test stores in the repository

  /** `unicode.ToLower` for one rune, for the ASCII letters. */
  function LowerRune(c: char): (r: char)
    ensures 'A' <= c <= 'Z' ==> r as int == c as int + 32
    ensures !('A' <= c <= 'Z') ==> r == c
  {
    if 'A' <= c <= 'Z' then (c as int + 32) as char else c
  }

  /** `strings.ToLower`, rune by rune. */
  function ToLower(s: string): (r: string)
    ensures |r| == |s|
    ensures forall i | 0 <= i < |s| :: r[i] == LowerRune(s[i])
  {
    if s == [] then [] else [LowerRune(s[0])] + ToLower(s[1..])
  }

  /** Lower-casing twice changes nothing more: stored keys are their own keys. */
  lemma ToLowerIdempotent(s: string)
    ensures ToLower(ToLower(s)) == ToLower(s)
  {
    var t := ToLower(s);
    assert forall i | 0 <= i < |s| :: LowerRune(t[i]) == t[i];
  }

  /** Two names that differ only in the case of their ASCII letters share a key. */
  lemma CaseVariantsShareKey(a: string, b: string)
    requires |a| == |b|
    requires forall i | 0 <= i < |a| :: a[i] == b[i] || LowerRune(a[i]) == b[i] || a[i] == LowerRune(b[i])
    ensures ToLower(a) == ToLower(b)
  {
    forall i | 0 <= i < |a|
      ensures ToLower(a)[i] == ToLower(b)[i]
    {
      assert LowerRune(LowerRune(a[i])) == LowerRune(a[i]);
      assert LowerRune(LowerRune(b[i])) == LowerRune(b[i]);
    }
  }

  /** The fields of `model.User` the repository reads or writes. */
  class User {
    var id: string
    var userName: string
    var password: string
    var newPassword: string

    constructor (id: string, userName: string, newPassword: string)
      ensures this.id == id && this.userName == userName
      ensures this.password == "" && this.newPassword == newPassword
    {
      this.id := id;
      this.userName := userName;
      this.password := "";
      this.newPassword := newPassword;
    }
  }

  class MockedUserRepo {
    /** `base64.StdEncoding.EncodeToString([]byte(name))`. */
    const encodeId: string -> string
    /** The `Error` field: when set, the operations fail with it. */
    var error: Option<Error>
    /** The `Data` field. */
    var data: map<string, User>

    /** Every user is stored under its lower-cased name. */
    ghost predicate Valid()
      reads this, data.Values
    {
      forall k | k in data :: k == ToLower(data[k].userName)
    }

    /** `CreateMockUserRepo`. */
    constructor (encodeId: string -> string)
      ensures Valid()
      ensures this.encodeId == encodeId && error == None && data == map[]
    {
      this.encodeId := encodeId;
      error := None;
      data := map[];
    }

    /** CountAll: the number of stored keys, that is, of distinct lower-cased names. */
    method CountAll() returns (r: Result<nat, Error>)
      ensures error.Some? ==> r == Err(error.value)
      ensures error.None? ==> r == Ok(|data|)
    {
      if error.Some? {
        return Err(error.value);
      }
      r := Ok(|data|);
    }

    /** The stored keys are exactly the lower-cased names of the stored users,
        so CountAll counts distinct lower-cased names. */
    lemma KeysAreNames()
      requires Valid()
      ensures data.Keys == set u | u in data.Values :: ToLower(u.userName)
    {
      forall k | k in data ensures k in set u | u in data.Values :: ToLower(u.userName) {
        assert data[k] in data.Values;
      }
    }

    /**
      Put: fills an empty id from the user name, copies NewPassword into
      Password, and stores the user under its lower-cased name. A user whose
      name differs from a stored one only in case replaces it.
    */
    method Put(usr: User) returns (err: Option<Error>)
      requires Valid()
      modifies this`data, usr`id, usr`password
      ensures Valid()
      ensures old(error).Some? ==> (err == old(error) && data == old(data)
        && usr.id == old(usr.id) && usr.password == old(usr.password))
      ensures old(error).None? ==> (err.None?
        && usr.id == (if old(usr.id) == "" then encodeId(usr.userName) else old(usr.id))
        && usr.password == usr.newPassword
        && data == old(data)[ToLower(usr.userName) := usr])
      ensures old(error).None? ==>
        |data| == |old(data)| + if ToLower(usr.userName) in old(data) then 0 else 1
    {
      if error.Some? {
        return error;
      }
      if usr.id == "" {
        usr.id := encodeId(usr.userName);
      }
      usr.password := usr.newPassword;
      var key := ToLower(usr.userName);
      ghost var before := data;
      data := data[key := usr];
      forall k | k in data
        ensures k == ToLower(data[k].userName)
      {
        if k != key {
          assert data[k] == before[k];
        }
      }
      err := None;
    }

    /** FindByUsername: the user stored under the lower-cased name, or not-found. */
    method FindByUsername(username: string) returns (r: Result<User, Error>)
      requires Valid()
      ensures error.Some? ==> r == Err(error.value)
      ensures error.None? && ToLower(username) !in data ==> r == Err(ErrNotFound)
      ensures error.None? && ToLower(username) in data ==> r == Ok(data[ToLower(username)])
      ensures r.Ok? ==> ToLower(r.value.userName) == ToLower(username)
    {
      if error.Some? {
        return Err(error.value);
      }
      var key := ToLower(username);
      if key !in data {
        return Err(ErrNotFound);
      }
      r := Ok(data[key]);
    }

    /** FindByUsernameWithPassword: the same lookup as FindByUsername. */
    method FindByUsernameWithPassword(username: string) returns (r: Result<User, Error>)
      requires Valid()
      ensures error.Some? ==> r == Err(error.value)
      ensures error.None? && ToLower(username) !in data ==> r == Err(ErrNotFound)
      ensures error.None? && ToLower(username) in data ==> r == Ok(data[ToLower(username)])
      ensures r.Ok? ==> ToLower(r.value.userName) == ToLower(username)
    {
      r := FindByUsername(username);
    }

    /** UpdateLastLoginAt: returns the injected error, and changes nothing. */
    method UpdateLastLoginAt(id: string) returns (err: Option<Error>)
      ensures err == error
    {
      err := error;
    }
  }

  lemma AdminKey()
    ensures ToLower("Admin") == "admin" && ToLower("ADMIN") == "admin" && ToLower("admin") == "admin"
  {
    var a, b, c := ToLower("Admin"), ToLower("ADMIN"), ToLower("admin");
    assert a[0] == 'a' && a[1] == 'd' && a[2] == 'm' && a[3] == 'i' && a[4] == 'n';
    assert b[0] == 'a' && b[1] == 'd' && b[2] == 'm' && b[3] == 'i' && b[4] == 'n';
    assert c[0] == 'a' && c[1] == 'd' && c[2] == 'm' && c[3] == 'i' && c[4] == 'n';
  }

  /** A repository client: Put on a fresh repository fills in the id and the password. */
  method FirstPut(encodeId: string -> string) returns (repo: MockedUserRepo, first: User)
    ensures repo.Valid() && repo.error == None
    ensures repo.data == map["admin" := first]
    ensures first.id == encodeId("Admin") && first.password == "secret"
  {
    AdminKey();
    repo := new MockedUserRepo(encodeId);
    first := new User("", "Admin", "secret");
    var err := repo.Put(first);
  }

  /** A repository client: a user whose name differs only in case replaces the stored one. */
  method CaseVariantPut(repo: MockedUserRepo) returns (second: User)
    requires repo.Valid() && repo.error == None && "admin" in repo.data
    modifies repo`data
    ensures repo.Valid()
    ensures repo.data == old(repo.data)["admin" := second] && |repo.data| == |old(repo.data)|
    ensures second.id == "42" && second.password == "other"
  {
    AdminKey();
    second := new User("42", "ADMIN", "other");
    var err := repo.Put(second);
  }

  /** A repository client: with one user stored, it is counted once and found by any case. */
  method CaseInsensitiveLookup(repo: MockedUserRepo, stored: User) returns (n: Result<nat, Error>, found: Result<User, Error>)
    requires repo.Valid() && repo.error == None
    requires repo.data == map["admin" := stored]
    ensures n == Ok(1)
    ensures found == Ok(stored)
  {
    AdminKey();
    n := repo.CountAll();
    found := repo.FindByUsername("ADMIN");
  }
}
