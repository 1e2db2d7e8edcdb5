/**
  The player repository (persistence/player_repository.go): the table of
  players, each owned by a user name, and the access rules the REST layer
  applies on behalf of the logged-in user. Admins see and change every
  player; other users see only the players whose `user_name` is theirs, may
  save or update only a player carrying their own user name, and may delete
  only their own players.

  The shared SQL base (`sqlRepository.put`, `delete`, `queryOne`, `count`)
  is not part of this model. Its behaviour is taken as: `put` writes the row
  under the given id, or under a freshly generated id when the id is empty,
  replacing any row already stored under that id; `delete` removes every row
  the filter selects; `queryOne` returns a selected row or `ErrNotFound`.
  A failure of the store is a parameter, `fault`.
*/
module Players {
  import opened Results
  import GoStrings
  import opened SqlBase

  /** The columns of `model.Player` the repository filters on. */
  datatype Player = Player(id: string, name: string, userName: string, client: string, userAgent: string)

  /** The user `loggedUser(ctx)` returns. */
  datatype LoggedUser = LoggedUser(userName: string, isAdmin: bool)

  datatype Error =
    | PermissionDenied      // rest.ErrPermissionDenied
    | RestNotFound          // rest.ErrNotFound
    | ModelNotFound         // model.ErrNotFound
    | Store(reason: string) // any other failure of the database

  datatype Column = Id | Name | UserName | Client | UserAgent

  function Field(p: Player, col: Column): string {
    match col
    case Id => p.id
    case Name => p.name
    case UserName => p.userName
    case Client => p.client
    case UserAgent => p.userAgent
  }

  /** The squirrel conditions the repository builds: `Eq`, `And`, and the
      `name` filter of the REST options (`containsFilter`). */
  datatype Cond =
    | Eq(col: Column, value: string)
    | And(conds: seq<Cond>)
    | NameContains(part: string)

  predicate Holds(p: Player, c: Cond)
    decreases c
  {
    match c
    case Eq(col, v) => Field(p, col) == v
    case And(cs) => forall i | 0 <= i < |cs| :: Holds(p, cs[i])
    case NameContains(part) => GoStrings.Contains(p.name, part)
  }

  /**
    `addRestriction`: the first condition given, if any, and for a user who
    is not an admin, the condition that the player is the user's own. The
    conditions after the first are dropped.
  */
  function AddRestriction(u: LoggedUser, sql: seq<Cond>): (r: Cond)
    ensures forall p :: Holds(p, r) <==>
      ((|sql| > 0 ==> Holds(p, sql[0])) && (u.isAdmin || p.userName == u.userName))
  {
    var s := if |sql| > 0 then [sql[0]] else [];
    var r := if u.isAdmin then And(s) else And(s + [Eq(UserName, u.userName)]);
    assert forall p :: Holds(p, r) <==> (forall i | 0 <= i < |r.conds| :: Holds(p, r.conds[i]));
    assert |sql| > 0 ==> r.conds[0] == sql[0];
    assert !u.isAdmin ==> r.conds[|r.conds| - 1] == Eq(UserName, u.userName);
    r
  }

  /** `isPermitted`: the user may write the player. */
  predicate IsPermitted(u: LoggedUser, p: Player) {
    u.isAdmin || p.userName == u.userName
  }

  /** The restriction with no condition of its own is exactly IsPermitted. */
  lemma RestrictionIsPermission(u: LoggedUser, p: Player)
    ensures Holds(p, AddRestriction(u, [])) <==> IsPermitted(u, p)
  {
  }

  /** `Save`, `Update` and `Delete` report the store's `model.ErrNotFound` as `rest.ErrNotFound`. */
  function ToRestError(e: Error): (r: Error)
    ensures e == ModelNotFound ==> r == RestNotFound
    ensures e != ModelNotFound ==> r == e
    ensures r != ModelNotFound
  {
    if e == ModelNotFound then RestNotFound else e
  }

  /** Every row is stored under its own id. */
  ghost predicate KeyedById(players: map<string, Player>) {
    forall k | k in players :: players[k].id == k
  }

  /** The table after `put(id, p)`: the row, carrying its key as id, replaces any row with that id. */
  function Stored(players: map<string, Player>, key: string, p: Player): (r: map<string, Player>)
    ensures KeyedById(players) ==> KeyedById(r)
    ensures r.Keys == players.Keys + {key}
    ensures r[key] == p.(id := key)
    ensures forall k | k in players && k != key :: r[k] == players[k]
  {
    players[key := p.(id := key)]
  }

  /** The ids of the rows a query with `filter` selects. */
  function Selected(players: map<string, Player>, filter: Cond): (r: set<string>)
    ensures forall k :: k in r <==> k in players && Holds(players[k], filter)
  {
    set k | k in players && Holds(players[k], filter)
  }

  /** The table after `delete(filter)`. */
  function Deleted(players: map<string, Player>, filter: Cond): (r: map<string, Player>)
    ensures KeyedById(players) ==> KeyedById(r)
    ensures forall k :: k in r <==> k in players && !Holds(players[k], filter)
    ensures forall k | k in r :: r[k] == players[k]
  {
    map k | k in players && !Holds(players[k], filter) :: players[k]
  }

  /** The filter `Delete(id)` hands to the store. */
  function DeleteFilter(u: LoggedUser, id: string): Cond {
    AddRestriction(u, [And([Eq(Id, id)])])
  }

  /**
    `Delete(id)` removes at most the one row with that id: for an admin, that
    row whoever owns it; for any other user, only when the user owns it.
  */
  lemma DeleteRemovesOnlyOwnRow(u: LoggedUser, players: map<string, Player>, id: string)
    requires KeyedById(players)
    ensures Deleted(players, DeleteFilter(u, id)) ==
      if id in players && IsPermitted(u, players[id]) then players - {id} else players
  {
    var f := DeleteFilter(u, id);
    forall k | k in players
      ensures Holds(players[k], f) <==> k == id && IsPermitted(u, players[id])
    {
      var c := And([Eq(Id, id)]);
      assert Holds(players[k], c) <==> Holds(players[k], c.conds[0]);
    }
    var r := Deleted(players, f);
    var e := if id in players && IsPermitted(u, players[id]) then players - {id} else players;
    assert r.Keys == e.Keys;
  }

  /** The select of the REST layer (`newRestSelect`): the query's own
      conditions and the restriction for the user. */
  function RestSelect(u: LoggedUser, query: Cond): (r: Cond)
    ensures forall p :: Holds(p, r) <==> Holds(p, query) && IsPermitted(u, p)
  {
    var r := And([query, AddRestriction(u, [])]);
    assert forall p :: Holds(p, r) <==> Holds(p, r.conds[0]) && Holds(p, r.conds[1]);
    r
  }

  /** The ids the REST layer shows the user for a query with `filter`. */
  function Visible(u: LoggedUser, players: map<string, Player>, filter: Cond): set<string> {
    Selected(players, RestSelect(u, filter))
  }

  /** A user who is not an admin sees only players of their own. */
  lemma NonAdminSeesOwnPlayers(u: LoggedUser, players: map<string, Player>, filter: Cond, k: string)
    requires !u.isAdmin && k in Visible(u, players, filter)
    ensures k in players && players[k].userName == u.userName && Holds(players[k], filter)
  {
  }

  /** An admin sees every player the filter selects; anyone else, those of them they own. */
  lemma {:induction false} VisibleIsSelectedAndPermitted(u: LoggedUser, players: map<string, Player>, filter: Cond)
    ensures Visible(u, players, filter) ==
      set k | k in Selected(players, filter) && IsPermitted(u, players[k])
    ensures u.isAdmin ==> Visible(u, players, filter) == Selected(players, filter)
  {
    var v := Visible(u, players, filter);
    var w := set k | k in Selected(players, filter) && IsPermitted(u, players[k]);
    forall k ensures k in v <==> k in w {
      if k in players {
        assert Holds(players[k], RestSelect(u, filter)) <==>
          Holds(players[k], filter) && Holds(players[k], AddRestriction(u, []));
      }
    }
  }

  /** A player handed to `Save` or `Update`: `Update` overwrites its id in place. */
  class PlayerEntity {
    var row: Player

    constructor (row: Player)
      ensures this.row == row
    {
      this.row := row;
    }
  }

  class PlayerRepository {
    /** The logged-in user of the request context. */
    const user: LoggedUser
    /** The `player` table, by id. */
    var players: map<string, Player>

    ghost predicate Valid()
      reads this
    {
      KeyedById(players)
    }

    /** `NewPlayerRepository`, over an empty table. */
    constructor (user: LoggedUser)
      ensures Valid() && this.user == user && players == map[]
    {
      this.user := user;
      players := map[];
    }

    /** `Put`: writes the player under its id, with no permission check. */
    method Put(p: Player, generated: string, fault: Option<Error>) returns (err: Option<Error>)
      requires Valid()
      modifies this`players
      ensures Valid()
      ensures fault.Some? ==> err == fault && players == old(players)
      ensures fault.None? ==> err.None? && players == Stored(old(players), PutKey(p.id, generated), p)
    {
      if fault.Some? {
        return fault;
      }
      players := Stored(players, PutKey(p.id, generated), p);
      err := None;
    }

    /** `Get`: the player with that id, with no permission check. */
    method Get(id: string) returns (r: Result<Player, Error>)
      requires Valid()
      ensures r.Ok? <==> id in players
      ensures r.Ok? ==> r.value == players[id] && r.value.id == id
      ensures r.Err? ==> r.error == ModelNotFound
    {
      if id !in players {
        return Err(ModelNotFound);
      }
      r := Ok(players[id]);
    }

    /** `FindMatch`: a player whose client, user agent and user name all agree. */
    method FindMatch(userName: string, client: string, userAgent: string) returns (r: Result<Player, Error>)
      ensures r.Err? <==> !exists k | k in players ::
        players[k].client == client && players[k].userAgent == userAgent && players[k].userName == userName
      ensures r.Err? ==> r.error == ModelNotFound
      ensures r.Ok? ==> (r.value in players.Values
        && r.value.client == client && r.value.userAgent == userAgent && r.value.userName == userName)
    {
      var c := And([Eq(Client, client), Eq(UserAgent, userAgent), Eq(UserName, userName)]);
      assert forall p :: Holds(p, c) <==>
        Holds(p, c.conds[0]) && Holds(p, c.conds[1]) && Holds(p, c.conds[2]);
      var found := Selected(players, c);
      if found == {} {
        return Err(ModelNotFound);
      }
      var k :| k in found;
      r := Ok(players[k]);
    }

    /** `Count`: the number of players the user may see that match the filter. */
    method Count(filter: Cond) returns (n: nat)
      ensures n == |Visible(user, players, filter)|
      ensures n <= |players|
    {
      var v := Visible(user, players, filter);
      assert v <= players.Keys;
      SubsetCard(v, players.Keys);
      n := |v|;
    }

    /** `Read`: the player with that id, when the user may see it. */
    method Read(id: string) returns (r: Result<Player, Error>)
      requires Valid()
      ensures r.Ok? <==> id in players && IsPermitted(user, players[id])
      ensures r.Ok? ==> r.value == players[id]
      ensures r.Err? ==> r.error == ModelNotFound
    {
      var found := Visible(user, players, Eq(Id, id));
      if found == {} {
        return Err(ModelNotFound);
      }
      var k :| k in found;
      r := Ok(players[k]);
    }

    /** `ReadAll`: the players the user may see that match the filter. */
    method ReadAll(filter: Cond) returns (r: set<Player>)
      ensures r == set k | k in Visible(user, players, filter) :: players[k]
      ensures forall p | p in r :: IsPermitted(user, p) && Holds(p, filter)
    {
      r := set k | k in Visible(user, players, filter) :: players[k];
    }

    /**
      `Save`: a player the user may not write is refused and nothing is
      written; otherwise it is put under its id. Only the owner named in the
      player handed in is checked, not the owner of the row it replaces.
    */
    method Save(entity: PlayerEntity, generated: string, fault: Option<Error>) returns (id: string, err: Option<Error>)
      requires Valid()
      modifies this`players
      ensures Valid()
      ensures !IsPermitted(user, entity.row) ==>
        id == "" && err == Some(PermissionDenied) && players == old(players)
      ensures IsPermitted(user, entity.row) && fault.Some? ==>
        err == Some(ToRestError(fault.value)) && players == old(players)
        && (fault.value == ModelNotFound ==> id == "")
      ensures IsPermitted(user, entity.row) && fault.None? ==>
        id == PutKey(entity.row.id, generated) && err.None?
        && players == Stored(old(players), id, entity.row)
    {
      var t := entity.row;
      if !IsPermitted(user, t) {
        return "", Some(PermissionDenied);
      }
      var e := Put(t, generated, fault);
      if e.Some? {
        return "", Some(ToRestError(e.value));
      }
      id, err := PutKey(t.id, generated), None;
    }

    /**
      `Update`: the entity's id becomes `id` first, whatever the outcome;
      then the permission check, then the write.
    */
    method Update(id: string, entity: PlayerEntity, generated: string, fault: Option<Error>) returns (err: Option<Error>)
      requires Valid()
      modifies this`players, entity`row
      ensures Valid()
      ensures entity.row == old(entity.row).(id := id)
      ensures !IsPermitted(user, entity.row) ==> err == Some(PermissionDenied) && players == old(players)
      ensures IsPermitted(user, entity.row) && fault.Some? ==>
        err == Some(ToRestError(fault.value)) && players == old(players)
      ensures IsPermitted(user, entity.row) && fault.None? ==>
        err.None? && players == Stored(old(players), PutKey(id, generated), entity.row)
    {
      entity.row := entity.row.(id := id);
      if !IsPermitted(user, entity.row) {
        return Some(PermissionDenied);
      }
      var e := Put(entity.row, generated, fault);
      if e.Some? {
        return Some(ToRestError(e.value));
      }
      err := None;
    }

    /** `Delete`: removes the rows the restricted id filter selects. */
    method Delete(id: string, fault: Option<Error>) returns (err: Option<Error>)
      requires Valid()
      modifies this`players
      ensures Valid()
      ensures fault.Some? ==> err == Some(ToRestError(fault.value)) && players == old(players)
      ensures fault.None? ==> err.None? && players == Deleted(old(players), DeleteFilter(user, id))
    {
      if fault.Some? {
        return Some(ToRestError(fault.value));
      }
      players := Deleted(players, DeleteFilter(user, id));
      err := None;
    }
  }

  lemma {:induction false} SubsetCard<T>(a: set<T>, b: set<T>)
    requires a <= b
    ensures |a| <= |b|
  {
    if a != {} {
      var x :| x in a;
      SubsetCard(a - {x}, b - {x});
    }
  }

  /**
    A repository client: a user who is not an admin deletes a player of
    another user; the table is left as it was.
  */
  method ForeignDeleteKeepsRow(repo: PlayerRepository, id: string)
    requires repo.Valid() && !repo.user.isAdmin
    requires id in repo.players && repo.players[id].userName != repo.user.userName
    modifies repo`players
    ensures repo.players == old(repo.players)
  {
    DeleteRemovesOnlyOwnRow(repo.user, repo.players, id);
    var err := repo.Delete(id, None);
  }

  /**
    A repository client: Update checks the owner named in the entity, not the
    owner of the stored row, so a user who is not an admin can update a
    player of another user by naming themselves in the entity.
  */
  method UpdateRewritesForeignRow(repo: PlayerRepository, id: string, generated: string)
    requires repo.Valid() && !repo.user.isAdmin && id != ""
    requires id in repo.players && repo.players[id].userName != repo.user.userName
    modifies repo`players
    ensures id in repo.players && repo.players[id].userName == repo.user.userName
  {
    var entity := new PlayerEntity(Player("", "mine", repo.user.userName, "c", "ua"));
    var err := repo.Update(id, entity, generated, None);
  }
}
