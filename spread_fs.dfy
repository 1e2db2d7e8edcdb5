/**
  The spread file system of the cache (utils/cache): cache keys are mapped to
  files `<root>/<s1>/<s2>/<digest>`, where `<digest>` is the 40 hexadecimal
  digits of the key's SHA-1 digest and `<s1>`, `<s2>` its first two pairs of
  digits, so that no directory holds too many files. A path the mapper
  produced maps to itself, so the paths Reload hands back can be used as keys.

  The digest is a parameter of the file system (`digest`), and the file tree
  is a map from paths to contents.
*/
module SpreadFs {
  import opened Results
  import opened GoStrings

  newtype byte = x: int | 0 <= x < 256

  /** A lower-case hexadecimal digit, as `%x` prints them. */
  predicate IsHexDigit(c: char) {
    '0' <= c <= '9' || 'a' <= c <= 'f'
  }

  /** The hexadecimal form of a 160-bit digest. */
  predicate IsDigest(s: string) {
    |s| == 40 && forall i | 0 <= i < |s| :: IsHexDigit(s[i])
  }

  type Digest = s: string | IsDigest(s)
    witness "0000000000000000000000000000000000000000"

  /** The path a digest is stored at. */
  function Layout(root: string, d: Digest): (p: string)
    ensures |p| == |root| + 47
    ensures GoStrings.HasPrefix(p, root + [Sep])
  {
    root + [Sep] + d[..2] + [Sep] + d[2..4] + [Sep] + d
  }

  /** The path is one the mapper produces: under the root, two shard levels, a digest as leaf. */
  predicate IsMapped(root: string, p: string) {
    |p| >= |root| + 47 && IsDigest(p[|p| - 40..]) && p == Layout(root, p[|p| - 40..])
  }

  lemma LayoutIsMapped(root: string, d: Digest)
    ensures IsMapped(root, Layout(root, d))
  {
    var p := Layout(root, d);
    assert p[|p| - 40..] == d;
  }

  /** Distinct digests are stored at distinct paths. */
  lemma LayoutInjective(root: string, d1: Digest, d2: Digest)
    requires Layout(root, d1) == Layout(root, d2)
    ensures d1 == d2
  {
    var p := Layout(root, d1);
    assert p[|p| - 40..] == d1;
    assert Layout(root, d2)[|p| - 40..] == d2;
  }

  /** Below the root, a stored path splits into an empty piece, the two shards and the digest. */
  lemma {:induction false} LayoutSegments(root: string, d: Digest)
    ensures GoStrings.Split(GoStrings.TrimPrefix(Layout(root, d), root), Sep) == ["", d[..2], d[2..4], d]
  {
    var parts := ["", d[..2], d[2..4], d];
    assert forall j | 0 <= j < |d| :: d[j] != Sep;
    assert Sep !in d[..2] && Sep !in d[2..4] && Sep !in d;
    var p := Layout(root, d);
    assert GoStrings.HasPrefix(p, root);
    assert GoStrings.TrimPrefix(p, root) == [Sep] + d[..2] + [Sep] + d[2..4] + [Sep] + d;
    assert parts[1..] == [d[..2], d[2..4], d] && parts[1..][1..] == [d[2..4], d];
    assert GoStrings.Join([d[2..4], d], Sep) == d[2..4] + [Sep] + d;
    assert GoStrings.Join(parts, Sep) == [Sep] + d[..2] + [Sep] + d[2..4] + [Sep] + d;
    GoStrings.SplitJoin(parts, Sep);
  }

  /** One call of the Reload callback: the key and the path of a stored file. */
  datatype Visit = Visit(key: string, name: string)

  datatype Error = NotFound

  class SpreadFS {
    /** The cache root directory. */
    const root: string
    /** `sha1.Sum` printed with `%x`. */
    const digest: string -> Digest
    /** The files of the tree and their contents. */
    var files: map<string, seq<byte>>

    /** `NewSpreadFS`, over a root that holds no files yet. */
    constructor (root: string, digest: string -> Digest)
      ensures this.root == root && this.digest == digest && files == map[]
    {
      this.root := root;
      this.digest := digest;
      files := map[];
    }

    /**
      `KeyMapper`: a mapped path is returned as it is; any other key is
      mapped to the path of its digest. Either way the result is a mapped path.
    */
    function KeyMapper(key: string): (r: string)
      ensures IsMapped(root, r)
      ensures IsMapped(root, key) ==> r == key
      ensures !IsMapped(root, key) ==> r == Layout(root, digest(key))
      ensures GoStrings.HasPrefix(r, root + [Sep])
    {
      if IsMapped(root, key) then key
      else
        LayoutIsMapped(root, digest(key));
        Layout(root, digest(key))
    }

    /** Mapping a mapped path again changes nothing. */
    lemma KeyMapperIdempotent(key: string)
      ensures KeyMapper(KeyMapper(key)) == KeyMapper(key)
    {
    }

    /**
      The shape of a mapped path: it starts with the root; what follows splits
      at the separator into four pieces, the last one the 40-digit digest and
      the two before it its first two pairs of digits.
    */
    lemma KeyMapperShape(key: string)
      ensures GoStrings.HasPrefix(KeyMapper(key), root)
      ensures var parts := GoStrings.Split(GoStrings.TrimPrefix(KeyMapper(key), root), Sep);
        |parts| == 4 && parts[0] == "" && IsDigest(parts[3])
        && parts[1] == parts[3][..2] && parts[2] == parts[3][2..4]
    {
      var r := KeyMapper(key);
      var d: Digest := r[|r| - 40..];
      LayoutSegments(root, d);
      assert GoStrings.HasPrefix(r, root + [Sep]);
      assert r[..|root|] == (root + [Sep])[..|root|];
    }

    /** Keys whose digests differ are stored at different paths. */
    lemma DistinctDigestsDistinctPaths(k1: string, k2: string)
      requires !IsMapped(root, k1) && !IsMapped(root, k2)
      requires digest(k1) != digest(k2)
      ensures KeyMapper(k1) != KeyMapper(k2)
    {
      if KeyMapper(k1) == KeyMapper(k2) {
        LayoutInjective(root, digest(k1), digest(k2));
      }
    }

    /** `Open` then read the whole file: its contents, or not-found. */
    function Open(path: string): (r: Result<seq<byte>, Error>)
      reads this
      ensures r.Ok? <==> path in files
      ensures r.Ok? ==> r.value == files[path]
    {
      if path in files then Ok(files[path]) else Err(NotFound)
    }

    /** `Create`: the file exists afterwards and is empty; no other file changes. */
    method Create(path: string)
      modifies this`files
      ensures files == old(files)[path := []]
    {
      files := files[path := []];
    }

    /** A write through the handle Create returned: the data goes at the end of the file. */
    method Write(path: string, data: seq<byte>)
      requires path in files
      modifies this`files
      ensures files == old(files)[path := old(files)[path] + data]
    {
      files := files[path := files[path] + data];
    }

    /** The files a walk of the root reaches. */
    function Stored(): (r: set<string>)
      reads this
      ensures forall p :: p in r <==> p in files && GoStrings.HasPrefix(p, root + [Sep])
    {
      set p | p in files && GoStrings.HasPrefix(p, root + [Sep])
    }

    /**
      `Reload`: walks the root and calls back once for every file found, with
      the file's path as the key and as the name. The order is not specified.
    */
    method Reload() returns (visits: seq<Visit>)
      ensures forall i | 0 <= i < |visits| :: visits[i].key == visits[i].name
      ensures forall i, j | 0 <= i < j < |visits| :: visits[i].name != visits[j].name
      ensures forall p :: p in Stored() <==> exists i :: 0 <= i < |visits| && visits[i].name == p
      ensures |visits| == |Stored()|
    {
      var all := Stored();
      var todo := all;
      visits := [];
      while todo != {}
        invariant todo <= all
        invariant forall i | 0 <= i < |visits| :: visits[i].key == visits[i].name
        invariant forall i, j | 0 <= i < j < |visits| :: visits[i].name != visits[j].name
        invariant forall p :: p in all <==> p in todo || exists i :: 0 <= i < |visits| && visits[i].name == p
        invariant forall i | 0 <= i < |visits| :: visits[i].name !in todo
        invariant |visits| + |todo| == |all|
        decreases |todo|
      {
        var p :| p in todo;
        var next := visits + [Visit(p, p)];
        assert next[|visits|].name == p;
        assert forall i | 0 <= i < |visits| :: next[i] == visits[i];
        visits, todo := next, todo - {p};
      }
    }

    /**
      The Reload of the test: the callback reads every file it is handed and
      collects the contents. Every stored file is read once.
    */
    method LoadAll() returns (actual: seq<seq<byte>>)
      ensures |actual| == |Stored()|
      ensures forall p | p in Stored() :: files[p] in actual
      ensures forall i | 0 <= i < |actual| :: exists p :: p in Stored() && actual[i] == files[p]
    {
      var visits := Reload();
      actual := [];
      var i := 0;
      while i < |visits|
        invariant 0 <= i <= |visits|
        invariant |actual| == i
        invariant forall j | 0 <= j < i :: visits[j].name in files && actual[j] == files[visits[j].name]
      {
        var data := Open(visits[i].name);
        actual := actual + [data.value];
        i := i + 1;
      }
      forall p | p in Stored()
        ensures files[p] in actual
      {
        var j :| 0 <= j < |visits| && visits[j].name == p;
        assert actual[j] == files[p];
      }
    }

    /** The mapped path of every key, in order. */
    function MapKeys(keys: seq<string>): (paths: seq<string>)
      ensures |paths| == |keys|
    {
      if keys == [] then [] else [KeyMapper(keys[0])] + MapKeys(keys[1..])
    }

    /** After writing distinct paths under the root into an empty tree, a walk finds one file per path. */
    lemma StoredAfterWrites(paths: seq<string>, contents: seq<seq<byte>>)
      requires |paths| == |contents| && files == Written(paths, contents)
      requires forall i, j | 0 <= i < j < |paths| :: paths[i] != paths[j]
      requires forall i | 0 <= i < |paths| :: GoStrings.HasPrefix(paths[i], root + [Sep])
      ensures |Stored()| == |paths|
      ensures forall i | 0 <= i < |paths| :: paths[i] in Stored() && files[paths[i]] == contents[i]
    {
      WrittenDistinct(paths, contents);
      WrittenKeys(paths, contents);
      assert Stored() == files.Keys;
    }

    /** Keys with distinct mapped paths give distinct paths under the root. */
    lemma MappedPaths(keys: seq<string>)
      requires forall i, j | 0 <= i < j < |keys| :: KeyMapper(keys[i]) != KeyMapper(keys[j])
      ensures forall i, j | 0 <= i < j < |keys| :: MapKeys(keys)[i] != MapKeys(keys)[j]
      ensures forall i | 0 <= i < |keys| :: GoStrings.HasPrefix(MapKeys(keys)[i], root + [Sep])
    {
      forall i | 0 <= i < |keys|
        ensures MapKeys(keys)[i] == KeyMapper(keys[i])
      {
        MapKeysAt(keys, i);
      }
    }

    lemma {:induction false} MapKeysAt(keys: seq<string>, i: nat)
      requires i < |keys|
      ensures MapKeys(keys)[i] == KeyMapper(keys[i])
    {
      if i > 0 {
        MapKeysAt(keys[1..], i - 1);
      }
    }
  }

  /** The files written by giving each path its contents, in order. */
  function Written(paths: seq<string>, contents: seq<seq<byte>>): map<string, seq<byte>>
    requires |paths| == |contents|
  {
    if paths == [] then map[]
    else
      var n := |paths| - 1;
      Written(paths[..n], contents[..n])[paths[n] := contents[n]]
  }

  /** The files written are exactly the paths given. */
  lemma {:induction false} WrittenKeys(paths: seq<string>, contents: seq<seq<byte>>)
    requires |paths| == |contents|
    ensures Written(paths, contents).Keys == set i | 0 <= i < |paths| :: paths[i]
  {
    if paths != [] {
      var n := |paths| - 1;
      WrittenKeys(paths[..n], contents[..n]);
      assert (set i | 0 <= i < |paths| :: paths[i]) == (set i | 0 <= i < n :: paths[..n][i]) + {paths[n]};
    }
  }

  /** With distinct paths, every path holds its own contents and there is one file per path. */
  lemma {:induction false} WrittenDistinct(paths: seq<string>, contents: seq<seq<byte>>)
    requires |paths| == |contents|
    requires forall i, j | 0 <= i < j < |paths| :: paths[i] != paths[j]
    ensures forall i | 0 <= i < |paths| ::
      paths[i] in Written(paths, contents) && Written(paths, contents)[paths[i]] == contents[i]
    ensures |Written(paths, contents).Keys| == |paths|
  {
    if paths != [] {
      var n := |paths| - 1;
      var ps, cs := paths[..n], contents[..n];
      WrittenDistinct(ps, cs);
      WrittenKeys(ps, cs);
      var w := Written(ps, cs);
      forall i | 0 <= i < n
        ensures ps[i] != paths[n]
      {
        assert ps[i] == paths[i];
      }
      assert paths[n] !in w;
      var all := Written(paths, contents);
      assert all == w[paths[n] := contents[n]];
      forall i | 0 <= i < |paths|
        ensures paths[i] in all && all[paths[i]] == contents[i]
      {
        if i < n {
          assert ps[i] == paths[i] && cs[i] == contents[i];
        }
      }
      assert all.Keys == w.Keys + {paths[n]};
    }
  }

  /** Writing one more path: the last contents given for it win. */
  lemma WrittenSnoc(paths: seq<string>, contents: seq<seq<byte>>, i: nat)
    requires |paths| == |contents| && i < |paths|
    ensures Written(paths[..i + 1], contents[..i + 1]) == Written(paths[..i], contents[..i])[paths[i] := contents[i]]
  {
    assert paths[..i + 1][..i] == paths[..i] && contents[..i + 1][..i] == contents[..i];
  }

  lemma MergeUpdate<K, V>(a: map<K, V>, b: map<K, V>, k: K, v: V)
    ensures (a + b)[k := v] == a + b[k := v]
  {
  }

  /** The round trip: what is written to a key's file is what opening it gives back. */
  method WriteThenOpen(fs: SpreadFS, key: string, data: seq<byte>)
    modifies fs`files
    ensures fs.Open(fs.KeyMapper(key)) == Ok(data)
    ensures forall p | p in old(fs.files) && p != fs.KeyMapper(key) :: fs.Open(p) == Ok(old(fs.files)[p])
  {
    var path := fs.KeyMapper(key);
    fs.Create(path);
    fs.Write(path, data);
    assert [] + data == data;
    assert fs.files == old(fs.files)[path := data];
  }

  /** The setup of the test: each key's file is created and its contents written. */
  method CreateAll(fs: SpreadFS, keys: seq<string>, contents: seq<seq<byte>>)
    requires |keys| == |contents|
    modifies fs`files
    ensures fs.files == old(fs.files) + Written(fs.MapKeys(keys), contents)
  {
    var paths := fs.MapKeys(keys);
    var i := 0;
    while i < |keys|
      invariant 0 <= i <= |keys|
      invariant fs.files == old(fs.files) + Written(paths[..i], contents[..i])
    {
      ghost var before := fs.files;
      var path := paths[i];
      fs.Create(path);
      fs.Write(path, contents[i]);
      assert [] + contents[i] == contents[i];
      assert fs.files == before[path := contents[i]];
      WrittenSnoc(paths, contents, i);
      MergeUpdate(old(fs.files), Written(paths[..i], contents[..i]), path, contents[i]);
      i := i + 1;
    }
    assert paths[..i] == paths && contents[..i] == contents;
  }

  /**
    Reload completeness: after writing N keys with distinct mapped paths into
    an empty tree, the Reload callback is called N times and reads back every
    key's contents.
  */
  method ReloadAfterWrites(fs: SpreadFS, keys: seq<string>, contents: seq<seq<byte>>) returns (actual: seq<seq<byte>>)
    requires fs.files == map[] && |keys| == |contents|
    requires forall i, j | 0 <= i < j < |keys| :: fs.KeyMapper(keys[i]) != fs.KeyMapper(keys[j])
    modifies fs`files
    ensures |actual| == |keys|
    ensures forall i | 0 <= i < |keys| :: contents[i] in actual
  {
    CreateAll(fs, keys, contents);
    var paths := fs.MapKeys(keys);
    fs.MappedPaths(keys);
    assert fs.files == Written(paths, contents);
    fs.StoredAfterWrites(paths, contents);
    actual := fs.LoadAll();
    forall i | 0 <= i < |keys|
      ensures contents[i] in actual
    {
      assert paths[i] in fs.Stored();
    }
  }
}
