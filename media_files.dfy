/**
  The path rules of the media-file repository (persistence/mediafile_repository.go).

  The `media_file` table is a sequence of rows, in the order the database
  returns them. The SQL the repository builds is modelled by what it means
  over that sequence: a `Cond` is a WHERE clause, `Where` is a SELECT and
  `DeleteWhere` a DELETE. SQLite's `substr`, `GLOB`, `rtrim` and `replace` are
  written out for the arguments the repository gives them.
*/
module MediaFiles {
  import opened Results
  import opened GoStrings
  import opened SqlBase

  datatype MediaFile = MediaFile(
    id: string,
    path: string,
    title: string,
    album: string,
    artist: string,
    albumArtist: string,
    sortTitle: string,
    sortAlbumName: string,
    sortArtistName: string,
    sortAlbumArtistName: string,
    discSubtitle: string,
    fullText: string)

  datatype Error =
    | ErrNotFound           // model.ErrNotFound
    | Store(reason: string) // any failure of the database

  // ---------------------------------------------------------------------
  // SQLite string functions, for the arguments the repository uses

  /** `substr(x, start, n)` with a 1-based `start >= 1`: at most `n` characters. */
  function Substr(x: string, start: nat, n: nat): (r: string)
    requires start >= 1
    ensures |r| <= n
    ensures start - 1 <= |x| ==> r == x[start - 1..if start - 1 + n <= |x| then start - 1 + n else |x|]
    ensures start - 1 > |x| ==> r == ""
  {
    if start - 1 >= |x| then ""
    else if start - 1 + n <= |x| then x[start - 1..start - 1 + n]
    else x[start - 1..]
  }

  /** `substr(x, start)`: everything from the 1-based position `start` on. */
  function SubstrFrom(x: string, start: nat): (r: string)
    requires start >= 1
    ensures start - 1 <= |x| ==> r == x[start - 1..]
    ensures start - 1 > |x| ==> r == ""
  {
    if start - 1 >= |x| then "" else x[start - 1..]
  }

  /** `replace(x, sep, '')`: `x` without its separators. */
  function RemoveSep(x: string): (r: string)
    ensures Sep !in r
    ensures forall c :: c in r <==> c in x && c != Sep
  {
    if x == [] then []
    else if x[0] == Sep then RemoveSep(x[1..])
    else [x[0]] + RemoveSep(x[1..])
  }

  /** `rtrim(x, chars)`: `x` without the longest suffix made of runes of `chars`. */
  function RTrim(x: string, chars: string): (r: string)
    ensures HasPrefix(x, r)
    ensures r == [] || r[|r| - 1] !in chars
    ensures forall k | |r| <= k < |x| :: x[k] in chars
  {
    if x == [] || x[|x| - 1] !in chars then x else RTrim(x[..|x| - 1], chars)
  }

  /** The index of the last separator in `p`, if any. */
  function LastSep(p: string): (r: Option<nat>)
    ensures r.Some? ==> r.value < |p| && p[r.value] == Sep && Sep !in p[r.value + 1..]
    ensures r.None? ==> Sep !in p
  {
    if p == [] then None
    else if p[|p| - 1] == Sep then Some(|p| - 1)
    else
      var r := LastSep(p[..|p| - 1]);
      assert r.Some? ==> p[r.value + 1..] == p[..|p| - 1][r.value + 1..] + [p[|p| - 1]];
      assert r.None? ==> p == p[..|p| - 1] + [p[|p| - 1]];
      r
  }

  /**
    `rtrim(path, replace(path, sep, ''))` cuts a path back to its last
    separator, which it keeps; a path without one becomes "".
  */
  lemma DirPartIsUpToLastSep(p: string)
    ensures LastSep(p).Some? ==> RTrim(p, RemoveSep(p)) == p[..LastSep(p).value + 1]
    ensures LastSep(p).None? ==> RTrim(p, RemoveSep(p)) == ""
  {
    var r := RTrim(p, RemoveSep(p));
    match LastSep(p)
    case Some(k) =>
      assert p[k] !in RemoveSep(p);
      if |r| <= k {
        assert false;
      }
      if |r| > k + 1 {
        assert false;
      }
    case None =>
      if r != [] {
        assert false;
      }
  }

  // ---------------------------------------------------------------------
  // Paths

  /**
    `cleanPath`: the lexical clean of `filepath.Clean` (given as `clean`),
    then a trailing separator, added only when missing.
  */
  function CleanPath(clean: string -> string, path: string): (r: string)
    ensures HasSuffix(r, [Sep])
    ensures HasPrefix(r, clean(path))
    ensures HasSuffix(clean(path), [Sep]) ==> r == clean(path)
    ensures !HasSuffix(clean(path), [Sep]) ==> r == clean(path) + [Sep]
  {
    var p := clean(path);
    if HasSuffix(p, [Sep]) then p else p + [Sep]
  }

  // ---------------------------------------------------------------------
  // WHERE clauses and the statements built from them

  datatype Cond =
    | IdEq(id: string)            // Eq{"media_file.id": id}
    | PathEq(path: string)        // Like{"path": path}, for a pattern without wildcards
    | PathStartsWith(dir: string) // pathStartsWith(dir): substr(path, 1, N) = dir, N its rune count
    | SepGlob(start: nat)         // substr(path, start) GLOB '*<sep>*'
    | Not(c: Cond)
    | And(l: Cond, r: Cond)

  predicate Holds(c: Cond, f: MediaFile) {
    match c
    case IdEq(id) => f.id == id
    case PathEq(p) => f.path == p
    case PathStartsWith(dir) => Substr(f.path, 1, |dir|) == dir
    case SepGlob(start) => start >= 1 && Sep in SubstrFrom(f.path, start)
    case Not(c') => !Holds(c', f)
    case And(l, r) => Holds(l, f) && Holds(r, f)
  }

  /** `pathStartsWith(dir)` selects exactly the rows whose path has `dir` as a prefix. */
  lemma PathStartsWithIsPrefix(dir: string, f: MediaFile)
    ensures Holds(PathStartsWith(dir), f) <==> HasPrefix(f.path, dir)
  {
  }

  /** SELECT * WHERE c: the rows that satisfy `c`. */
  function Where(table: seq<MediaFile>, c: Cond): (r: seq<MediaFile>)
    ensures |r| <= |table|
    ensures forall f :: f in r <==> f in table && Holds(c, f)
    ensures forall f :: multiset(r)[f] == if Holds(c, f) then multiset(table)[f] else 0
  {
    if table == [] then []
    else
      var n := |table| - 1;
      assert table == table[..n] + [table[n]];
      Where(table[..n], c) + if Holds(c, table[n]) then [table[n]] else []
  }

  /** DELETE WHERE c: the rows left, which are exactly those `c` does not hold for. */
  function DeleteWhere(table: seq<MediaFile>, c: Cond): (r: seq<MediaFile>)
    ensures forall f :: f in r <==> f in table && !Holds(c, f)
    ensures forall f :: multiset(r)[f] == if Holds(c, f) then 0 else multiset(table)[f]
  {
    Where(table, Not(c))
  }

  /** A DELETE keeps the rest of the table: the rows it removes and the rows it keeps make up the table. */
  lemma DeletePartitions(table: seq<MediaFile>, c: Cond)
    ensures multiset(Where(table, c)) + multiset(DeleteWhere(table, c)) == multiset(table)
    ensures |Where(table, c)| + |DeleteWhere(table, c)| == |table|
  {
    var a, b := Where(table, c), DeleteWhere(table, c);
    assert multiset(a) + multiset(b) == multiset(table);
    assert |multiset(a)| + |multiset(b)| == |multiset(table)|;
  }

  /** The first row that satisfies `c`, as `res[0]` of a query. */
  function First(table: seq<MediaFile>, c: Cond): (r: Option<MediaFile>)
    ensures r.None? <==> forall i | 0 <= i < |table| :: !Holds(c, table[i])
    ensures r.Some? ==> exists i | 0 <= i < |table| ::
      table[i] == r.value && Holds(c, r.value) && forall j | 0 <= j < i :: !Holds(c, table[j])
  {
    if table == [] then None
    else if Holds(c, table[0]) then Some(table[0])
    else
      var r := First(table[1..], c);
      assert forall i | 1 <= i < |table| :: table[i] == table[1..][i - 1];
      r
  }

  // ---------------------------------------------------------------------
  // Queries

  /** The direct-children condition of FindAllByPath and DeleteByPath for a cleaned `dir`. */
  function DirectChildren(dir: string): Cond {
    And(PathStartsWith(dir), Not(SepGlob(|dir| + 2)))
  }

  /** `FindAllByPath`: the rows under the cleaned path whose remainder, from
      1-based position `pathLen + 2` on, holds no separator. */
  function FindAllByPath(table: seq<MediaFile>, clean: string -> string, path: string): (r: seq<MediaFile>)
    ensures forall f :: f in r <==> (f in table && HasPrefix(f.path, CleanPath(clean, path))
      && Sep !in SubstrFrom(f.path, |CleanPath(clean, path)| + 2))
  {
    var dir := CleanPath(clean, path);
    forall f ensures Holds(DirectChildren(dir), f) <==>
      HasPrefix(f.path, dir) && Sep !in SubstrFrom(f.path, |dir| + 2)
    {
      DirectChildrenHolds(dir, f);
    }
    Where(table, DirectChildren(dir))
  }

  lemma DirectChildrenHolds(dir: string, f: MediaFile)
    ensures Holds(DirectChildren(dir), f) <==>
      HasPrefix(f.path, dir) && Sep !in SubstrFrom(f.path, |dir| + 2)
  {
    assert Holds(Not(SepGlob(|dir| + 2)), f) <==> !Holds(SepGlob(|dir| + 2), f);
    PathStartsWithIsPrefix(dir, f);
  }

  /**
    What the `+2` means: the remainder after the cleaned path (which ends in a
    separator) is read from its second rune on, so the first rune of a child's
    name is never looked at.
  */
  lemma DirectChildSkipsFirstRune(dir: string, c: char, name: string, f: MediaFile)
    requires f.path == dir + [c] + name
    ensures Holds(DirectChildren(dir), f) <==> Sep !in name
  {
    assert f.path[..|dir|] == dir;
    assert SubstrFrom(f.path, |dir| + 2) == name;
    DirectChildrenHolds(dir, f);
  }

  /** For a child whose name does not start with a separator, the condition is
      exactly "no separator in the name". */
  lemma DirectChildIsNoSepInName(dir: string, name: string, f: MediaFile)
    requires f.path == dir + name && |name| > 0 && name[0] != Sep
    ensures Holds(DirectChildren(dir), f) <==> Sep !in name
  {
    assert name == [name[0]] + name[1..];
    assert f.path == dir + [name[0]] + name[1..];
    DirectChildSkipsFirstRune(dir, name[0], name[1..], f);
  }

  /** Get: the row with `id`, or not-found when there is none. */
  function Get(table: seq<MediaFile>, id: string): (r: Result<MediaFile, Error>)
    ensures r.Err? <==> forall i | 0 <= i < |table| :: table[i].id != id
    ensures r.Err? ==> r.error == ErrNotFound
    ensures r.Ok? ==> r.value in table && r.value.id == id
  {
    match First(table, IdEq(id))
    case Some(f) => Ok(f)
    case None => Err(ErrNotFound)
  }

  /** FindByPath: the first row with that path, or not-found when there is none. */
  function FindByPath(table: seq<MediaFile>, path: string): (r: Result<MediaFile, Error>)
    ensures r.Err? <==> forall i | 0 <= i < |table| :: table[i].path != path
    ensures r.Err? ==> r.error == ErrNotFound
    ensures r.Ok? ==> exists i | 0 <= i < |table| :: (table[i] == r.value && r.value.path == path
      && forall j | 0 <= j < i :: table[j].path != path)
  {
    match First(table, PathEq(path))
    case Some(f) => Ok(f)
    case None => Err(ErrNotFound)
  }

  /** `SELECT DISTINCT`: each value once, in the order of first appearance. */
  function Distinct(xs: seq<string>): (r: seq<string>)
    ensures forall i, j | 0 <= i < j < |r| :: r[i] != r[j]
    ensures forall x :: x in r <==> x in xs
  {
    if xs == [] then []
    else
      var n := |xs| - 1;
      var rest := Distinct(xs[..n]);
      assert forall x :: x in xs <==> x in xs[..n] || x == xs[n];
      if xs[n] in rest then rest else rest + [xs[n]]
  }

  /** The folder part of each row's path, `rtrim(path, replace(path, sep, ''))`. */
  function DirParts(rows: seq<MediaFile>): (r: seq<string>)
    ensures |r| == |rows|
    ensures forall i | 0 <= i < |rows| :: r[i] == RTrim(rows[i].path, RemoveSep(rows[i].path))
  {
    if rows == [] then [] else [RTrim(rows[0].path, RemoveSep(rows[0].path))] + DirParts(rows[1..])
  }

  /** `FindPathsRecursively`: the distinct folders of the rows under the cleaned base path. */
  function FindPathsRecursively(table: seq<MediaFile>, clean: string -> string, basePath: string): (r: seq<string>)
    ensures forall i, j | 0 <= i < j < |r| :: r[i] != r[j]
    ensures forall d :: d in r <==> exists f | f in table ::
      HasPrefix(f.path, CleanPath(clean, basePath)) && d == RTrim(f.path, RemoveSep(f.path))
  {
    var dir := CleanPath(clean, basePath);
    FoldersOfRowsUnder(table, dir);
    Distinct(DirParts(Where(table, PathStartsWith(dir))))
  }

  lemma FoldersOfRowsUnder(table: seq<MediaFile>, dir: string)
    ensures forall d :: d in DirParts(Where(table, PathStartsWith(dir))) <==>
      exists f | f in table :: HasPrefix(f.path, dir) && d == RTrim(f.path, RemoveSep(f.path))
  {
    var under := Where(table, PathStartsWith(dir));
    var dirs := DirParts(under);
    forall d | d in dirs
      ensures exists f | f in table :: HasPrefix(f.path, dir) && d == RTrim(f.path, RemoveSep(f.path))
    {
      var i :| 0 <= i < |dirs| && dirs[i] == d;
      assert under[i] in under;
    }
    forall f | f in table && HasPrefix(f.path, dir)
      ensures RTrim(f.path, RemoveSep(f.path)) in dirs
    {
      assert f in under;
      var i :| 0 <= i < |under| && under[i] == f;
      assert dirs[i] == RTrim(f.path, RemoveSep(f.path));
    }
  }

  /** Every folder FindPathsRecursively reports lies under the cleaned base path and ends in a separator. */
  lemma FoldersAreUnderBase(table: seq<MediaFile>, clean: string -> string, basePath: string, d: string)
    requires d in FindPathsRecursively(table, clean, basePath)
    ensures HasPrefix(d, CleanPath(clean, basePath))
    ensures HasSuffix(d, [Sep])
  {
    var dir := CleanPath(clean, basePath);
    var f :| f in table && HasPrefix(f.path, dir) && d == RTrim(f.path, RemoveSep(f.path));
    FolderOfPathUnder(f.path, dir);
  }

  lemma FolderOfPathUnder(p: string, dir: string)
    requires HasPrefix(p, dir) && HasSuffix(dir, [Sep])
    ensures HasPrefix(RTrim(p, RemoveSep(p)), dir)
    ensures HasSuffix(RTrim(p, RemoveSep(p)), [Sep])
  {
    assert p[|dir| - 1] == Sep;
    DirPartIsUpToLastSep(p);
    var k := LastSep(p).value;
    if k < |dir| - 1 {
      assert false;
    }
    var d := p[..k + 1];
    assert d[..|dir|] == p[..|dir|];
    assert d[k] == Sep;
  }

  // ---------------------------------------------------------------------
  // selectMediaFile's genre decision

  datatype SelectPlan = SelectPlan(joinsGenres: bool, groupsById: bool)

  /**
    `selectMediaFile`: `filter` is the SQL text of the first query option's
    filters, when there is one. Genres are joined when it mentions "genre",
    and rows are grouped by id unless it also mentions "genre_id".
  */
  function SelectMediaFile(filter: Option<string>): (plan: SelectPlan)
    ensures plan.joinsGenres <==> filter.Some? && Contains(filter.value, "genre")
    ensures plan.groupsById <==> plan.joinsGenres && !Contains(filter.value, "genre_id")
  {
    match filter
    case None => SelectPlan(false, false)
    case Some(s) =>
      if Contains(s, "genre") then SelectPlan(true, !Contains(s, "genre_id"))
      else SelectPlan(false, false)
  }

  /** A filter on genre_id always joins the genres and never groups. */
  lemma GenreIdFilterJoinsWithoutGrouping(s: string)
    requires Contains(s, "genre_id")
    ensures SelectMediaFile(Some(s)) == SelectPlan(true, false)
  {
    assert OccursAt("genre_id", "genre", 0);
    ContainsTransitive(s, "genre_id", "genre");
  }

  // ---------------------------------------------------------------------
  // The repository's state

  /** Rows are told apart by their id. */
  predicate UniqueIds(table: seq<MediaFile>) {
    forall i, j | 0 <= i < j < |table| :: table[i].id != table[j].id
  }

  lemma {:induction false} WhereKeepsUniqueIds(table: seq<MediaFile>, c: Cond)
    requires UniqueIds(table)
    ensures UniqueIds(Where(table, c))
  {
    if table != [] {
      var n := |table| - 1;
      WhereKeepsUniqueIds(table[..n], c);
      var init := Where(table[..n], c);
      forall f | f in init
        ensures f.id != table[n].id
      {
        assert f in table[..n];
      }
    }
  }

  /** UPDATE ... WHERE id = f.id: every row with that id becomes `f`. */
  function ReplaceById(table: seq<MediaFile>, f: MediaFile): (r: seq<MediaFile>)
    ensures |r| == |table|
    ensures forall i | 0 <= i < |table| :: r[i] == if table[i].id == f.id then f else table[i]
  {
    if table == [] then []
    else [if table[0].id == f.id then f else table[0]] + ReplaceById(table[1..], f)
  }

  /**
    The write of the shared repository base, `put(key, f)`: the rows with id
    `key` are updated to `f` carrying that id, or it is inserted when there
    are none.
  */
  function Upsert(table: seq<MediaFile>, key: string, f: MediaFile): (r: seq<MediaFile>)
    ensures f.(id := key) in r
    ensures forall g | g in r :: g == f.(id := key) || (g in table && g.id != key)
    ensures forall g | g in table && g.id != key :: g in r
  {
    var row := f.(id := key);
    if exists i | 0 <= i < |table| :: table[i].id == key then
      var r := ReplaceById(table, row);
      forall g | g in table && g.id != key ensures g in r {
        var i :| 0 <= i < |table| && table[i] == g;
        assert r[i] == g;
      }
      r
    else table + [row]
  }

  lemma UpsertKeepsUniqueIds(table: seq<MediaFile>, key: string, f: MediaFile)
    requires UniqueIds(table)
    ensures UniqueIds(Upsert(table, key, f))
  {
    if exists i | 0 <= i < |table| :: table[i].id == key {
      var r := ReplaceById(table, f.(id := key));
      assert forall i | 0 <= i < |table| :: r[i].id == table[i].id;
    } else {
      var r := table + [f.(id := key)];
      assert forall i | 0 <= i < |table| :: r[i] == table[i];
    }
  }

  /** Reading a written id back gives the row just written. */
  lemma PutThenGet(table: seq<MediaFile>, key: string, f: MediaFile)
    ensures Get(Upsert(table, key, f), key) == Ok(f.(id := key))
  {
    var r := Upsert(table, key, f);
    assert f.(id := key) in r;
  }

  /** With unique ids, the row Get returns is the one row with that id. */
  lemma GetOfUniqueIds(table: seq<MediaFile>, id: string, i: nat)
    requires UniqueIds(table)
    requires i < |table| && table[i].id == id
    ensures Get(table, id) == Ok(table[i])
  {
    var g := Get(table, id).value;
    var j :| 0 <= j < |table| && table[j] == g;
    assert i == j;
  }

  /** The caller's `*model.MediaFile`: Put writes its FullText in place. */
  class MediaFileRef {
    var file: MediaFile

    constructor (file: MediaFile)
      ensures this.file == file
    {
      this.file := file;
    }
  }

  class MediaFileRepository {
    /** `filepath.Clean`. */
    const clean: string -> string
    /** `getFullText`, over the nine tag fields it is given. */
    const fullText: seq<string> -> string
    var rows: seq<MediaFile>

    /** Ids are unique, so that the row Get finds is the only one with its id (GetOfUniqueIds). */
    ghost predicate Valid()
      reads this
    {
      UniqueIds(rows)
    }

    constructor (clean: string -> string, fullText: seq<string> -> string)
      ensures Valid() && rows == []
      ensures this.clean == clean && this.fullText == fullText
    {
      this.clean := clean;
      this.fullText := fullText;
      rows := [];
    }

    /** The text getFullText computes for `m`. */
    function FullTextOf(m: MediaFile): string
    {
      fullText([m.title, m.album, m.artist, m.albumArtist, m.sortTitle,
        m.sortAlbumName, m.sortArtistName, m.sortAlbumArtistName, m.discSubtitle])
    }

    /**
      Put: sets the caller's FullText, then writes the file under its id, or
      under the generated id when its id is empty. A failure of the store
      (`fault`) is returned and nothing is written; the FullText is set either way.
    */
    method Put(m: MediaFileRef, generated: string, fault: Option<Error>) returns (err: Option<Error>)
      requires Valid()
      modifies this`rows, m
      ensures Valid()
      ensures m.file == old(m.file).(fullText := FullTextOf(old(m.file)))
      ensures fault.Some? ==> err == fault && rows == old(rows)
      ensures fault.None? ==> err.None? && rows == Upsert(old(rows), PutKey(m.file.id, generated), m.file)
    {
      m.file := m.file.(fullText := FullTextOf(m.file));
      if fault.Some? {
        return fault;
      }
      var key := PutKey(m.file.id, generated);
      UpsertKeepsUniqueIds(rows, key, m.file);
      rows := Upsert(rows, key, m.file);
      err := None;
    }

    /** Delete: removes the row with `id`, or returns the store's failure and removes nothing. */
    method Delete(id: string, fault: Option<Error>) returns (err: Option<Error>)
      requires Valid()
      modifies this`rows
      ensures Valid()
      ensures fault.Some? ==> err == fault && rows == old(rows)
      ensures fault.None? ==> err.None? && rows == DeleteWhere(old(rows), IdEq(id))
    {
      if fault.Some? {
        return fault;
      }
      WhereKeepsUniqueIds(rows, Not(IdEq(id)));
      rows := DeleteWhere(rows, IdEq(id));
      err := None;
    }

    /** DeleteByPath: removes the direct children of the cleaned path and
        returns how many rows it removed, or returns the store's failure with
        a count of 0 and removes nothing. */
    method DeleteByPath(basePath: string, fault: Option<Error>) returns (count: nat, err: Option<Error>)
      requires Valid()
      modifies this`rows
      ensures Valid()
      ensures fault.Some? ==> count == 0 && err == fault && rows == old(rows)
      ensures fault.None? ==> (err.None?
        && rows == DeleteWhere(old(rows), DirectChildren(CleanPath(clean, basePath)))
        && count == |old(rows)| - |rows|)
    {
      if fault.Some? {
        return 0, fault;
      }
      var dir := CleanPath(clean, basePath);
      WhereKeepsUniqueIds(rows, Not(DirectChildren(dir)));
      DeletePartitions(rows, DirectChildren(dir));
      var kept := DeleteWhere(rows, DirectChildren(dir));
      count, err := |rows| - |kept|, None;
      rows := kept;
    }

    /** deleteNotInPath: removes every row that is not under the cleaned path,
        or returns the store's failure and removes nothing. */
    method DeleteNotInPath(basePath: string, fault: Option<Error>) returns (err: Option<Error>)
      requires Valid()
      modifies this`rows
      ensures Valid()
      ensures fault.Some? ==> err == fault && rows == old(rows)
      ensures fault.None? ==> (err.None?
        && rows == DeleteWhere(old(rows), Not(PathStartsWith(CleanPath(clean, basePath)))))
    {
      if fault.Some? {
        return fault;
      }
      var dir := CleanPath(clean, basePath);
      WhereKeepsUniqueIds(rows, Not(Not(PathStartsWith(dir))));
      rows := DeleteWhere(rows, Not(PathStartsWith(dir)));
      err := None;
    }
  }

  /** DeleteByPath removes exactly the rows FindAllByPath returns for the same
      path, and keeps every other row. */
  lemma DeleteByPathRemovesFoundRows(table: seq<MediaFile>, clean: string -> string, basePath: string)
    ensures var kept := DeleteWhere(table, DirectChildren(CleanPath(clean, basePath)));
      multiset(FindAllByPath(table, clean, basePath)) + multiset(kept) == multiset(table)
      && |table| - |kept| == |FindAllByPath(table, clean, basePath)|
  {
    DeletePartitions(table, DirectChildren(CleanPath(clean, basePath)));
  }

  /** deleteNotInPath keeps exactly the rows under the cleaned path, each as often as before. */
  lemma DeleteNotInPathKeepsRowsUnderPath(table: seq<MediaFile>, clean: string -> string, basePath: string, f: MediaFile)
    ensures var kept := DeleteWhere(table, Not(PathStartsWith(CleanPath(clean, basePath))));
      multiset(kept)[f] == if HasPrefix(f.path, CleanPath(clean, basePath)) then multiset(table)[f] else 0
  {
    var dir := CleanPath(clean, basePath);
    assert Holds(Not(Not(PathStartsWith(dir))), f) <==> Holds(PathStartsWith(dir), f);
    PathStartsWithIsPrefix(dir, f);
  }
}
