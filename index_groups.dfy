/**
  The alphabetic index-group parser (utils/index_group_parser.go).

  A specification such as "A-E(ABCDE) The X-Z(XYZ)" is split on single
  spaces; an entry of the form `label(members)` (the regular expression
  `(.+)\((.+)\)`, unanchored) maps each member rune to `label`, and any other
  entry maps to itself. Entries are applied left to right into one map.
*/
module IndexGroups {
  import opened Results
  import opened GoStrings

  /** Where a match of `(.+)\((.+)\)` lies in an entry: the label is
      `entry[start..open]`, the members are `entry[open + 1..close]`. */
  datatype Span = Span(start: nat, open: nat, close: nat)

  /** The two submatches of the regular expression. */
  datatype Group = Group(display: string, members: string)

  /** No line break in `g[lo..hi]`: Go's `.` does not match '\n'. */
  predicate NoNewline(g: string, lo: int, hi: int)
    requires 0 <= lo && hi <= |g|
  {
    forall k | lo <= k < hi :: g[k] != '\n'
  }

  /** `g[i..q + 1]` matches `(.+)\((.+)\)` with the `\(` at `p` and the `\)` at `q`. */
  predicate IsMatchAt(g: string, i: int, p: int, q: int) {
    0 <= i < p && p + 1 < q < |g| && g[p] == '(' && g[q] == ')' && NoNewline(g, i, q)
  }

  /**
    The match Go's leftmost-first engine reports: the leftmost start, then the
    longest label (`.+` is greedy), then the longest member list.
  */
  ghost predicate IsFirstMatch(g: string, m: Span) {
    && IsMatchAt(g, m.start, m.open, m.close)
    && forall i, p, q :: IsMatchAt(g, i, p, q) ==>
         m.start < i || (m.start == i && (p < m.open || (p == m.open && q <= m.close)))
  }

  /** The last index in `g[lo..hi]` holding `c`. */
  function LastIndexIn(g: string, c: char, lo: nat, hi: nat): (r: Option<nat>)
    requires lo <= hi <= |g|
    ensures r.Some? ==> lo <= r.value < hi && g[r.value] == c
    ensures r.Some? ==> forall k | r.value < k < hi :: g[k] != c
    ensures r.None? ==> forall k | lo <= k < hi :: g[k] != c
    decreases hi - lo
  {
    if lo == hi then None
    else if g[hi - 1] == c then Some(hi - 1)
    else LastIndexIn(g, c, lo, hi - 1)
  }

  /** The end of the line that starts at `i`: the next '\n', or the end of `g`. */
  function LineEnd(g: string, i: nat): (e: nat)
    requires i <= |g|
    ensures i <= e <= |g|
    ensures e < |g| ==> g[e] == '\n'
    ensures NoNewline(g, i, e)
    decreases |g| - i
  {
    if i == |g| || g[i] == '\n' then i else LineEnd(g, i + 1)
  }

  /** No match lies inside a line that has no ')' far enough from its start
      after a '(' that is not its first rune. */
  lemma NoMatchOnLine(g: string, i: nat, e: nat)
    requires i <= e <= |g|
    requires e < |g| ==> g[e] == '\n'
    requires NoNewline(g, i, e)
    requires forall s, p, q :: IsMatchAt(g, s, p, q) ==> i <= s
    requires forall p, q | i + 1 <= p && p + 1 < q < e :: !(g[p] == '(' && g[q] == ')')
    ensures forall s, p, q :: IsMatchAt(g, s, p, q) ==> e + 1 <= s
  {
    forall s, p, q | IsMatchAt(g, s, p, q)
      ensures e + 1 <= s
    {
      if s <= e {
        assert false;
      }
    }
  }

  /**
    The first match that starts at `i` or later, line by line. Requires that
    no match starts before `i`.
  */
  function MatchFrom(g: string, i: nat): (r: Option<Span>)
    requires i <= |g|
    requires forall s, p, q :: IsMatchAt(g, s, p, q) ==> i <= s
    ensures r.Some? ==> IsFirstMatch(g, r.value)
    ensures r.None? ==> forall s, p, q :: !IsMatchAt(g, s, p, q)
    decreases |g| - i
  {
    var e := LineEnd(g, i);
    var close := LastIndexIn(g, ')', i, e);
    var open := if close.Some? && i + 2 <= close.value
      then LastIndexIn(g, '(', i + 1, close.value - 1) else None;
    if open.Some? then
      Some(Span(i, open.value, close.value))
    else
      NoMatchOnLine(g, i, e);
      if e < |g| then MatchFrom(g, e + 1) else None
  }

  /** `indexGroupsRx.FindStringSubmatch(g)`: the label and the members, if `g` matches. */
  function FindGroup(g: string): (r: Option<Group>)
    ensures r.Some? <==> exists i, p, q :: IsMatchAt(g, i, p, q)
    ensures r.Some? ==> |r.value.display| > 0 && |r.value.members| > 0
  {
    match MatchFrom(g, 0)
    case Some(m) => Some(Group(g[m.start..m.open], g[m.open + 1..m.close]))
    case None => None
  }

  /** The label and members reported are those of Go's first match. */
  lemma FindGroupIsFirstMatch(g: string)
    requires FindGroup(g).Some?
    ensures exists m :: (IsFirstMatch(g, m)
      && FindGroup(g).value == Group(g[m.start..m.open], g[m.open + 1..m.close]))
  {
    var m := MatchFrom(g, 0).value;
    assert IsFirstMatch(g, m);
  }

  // ---------------------------------------------------------------------
  // What one entry writes into the map

  /** Entry `e` assigns key `k`: one member rune of its group, or the entry itself. */
  predicate Writes(e: string, k: string) {
    match FindGroup(e)
    case Some(grp) => |k| == 1 && k[0] in grp.members
    case None => k == e
  }

  /** The value entry `e` assigns to every key it writes. */
  function ValueOf(e: string): string {
    match FindGroup(e)
    case Some(grp) => grp.display
    case None => e
  }

  /** `parsed[string(c)] = display` for each rune `c` of `members`, in order. */
  function AssignEach(m: map<string, string>, members: string, display: string): map<string, string>
  {
    if members == [] then m
    else AssignEach(m, members[..|members| - 1], display)[[members[|members| - 1]] := display]
  }

  /** One turn of the outer loop. */
  function ApplyEntry(m: map<string, string>, e: string): map<string, string> {
    match FindGroup(e)
    case Some(grp) => AssignEach(m, grp.members, grp.display)
    case None => m[e := e]
  }

  /** The entries applied left to right. */
  function ApplyEntries(m: map<string, string>, entries: seq<string>): map<string, string> {
    if entries == [] then m
    else ApplyEntry(ApplyEntries(m, entries[..|entries| - 1]), entries[|entries| - 1])
  }

  /** What `ParseIndexGroups(spec)` returns. */
  function Parsed(spec: string): map<string, string> {
    ApplyEntries(map[], Split(spec, ' '))
  }

  /** `ParseIndexGroups`: fills the map in place, entry by entry and rune by rune. */
  method ParseIndexGroups(spec: string) returns (parsed: map<string, string>)
    ensures parsed == Parsed(spec)
  {
    parsed := map[];
    var split := Split(spec, ' ');
    var n := 0;
    while n < |split|
      invariant 0 <= n <= |split|
      invariant parsed == ApplyEntries(map[], split[..n])
    {
      var g := split[n];
      assert split[..n + 1][..n] == split[..n];
      var sub := FindGroup(g);
      if sub.Some? {
        var before := parsed;
        var members, display := sub.value.members, sub.value.display;
        var j := 0;
        while j < |members|
          invariant 0 <= j <= |members|
          invariant parsed == AssignEach(before, members[..j], display)
        {
          assert members[..j + 1][..j] == members[..j];
          parsed := parsed[[members[j]] := display];
          j := j + 1;
        }
        assert members[..j] == members;
      } else {
        parsed := parsed[g := g];
      }
      n := n + 1;
    }
    assert split[..n] == split;
  }

  // ---------------------------------------------------------------------
  // Properties of the parsed map

  lemma {:induction false} AssignEachAt(m: map<string, string>, members: string, display: string, k: string)
    ensures k in AssignEach(m, members, display) <==> k in m || (|k| == 1 && k[0] in members)
    ensures |k| == 1 && k[0] in members ==> AssignEach(m, members, display)[k] == display
    ensures !(|k| == 1 && k[0] in members) && k in m ==> AssignEach(m, members, display)[k] == m[k]
  {
    if members != [] {
      var n := |members| - 1;
      var init := members[..n];
      AssignEachAt(m, init, display, k);
      assert members == init + [members[n]];
      if |k| == 1 && k[0] in members && k != [members[n]] {
        assert k[0] in init;
      }
    }
  }

  lemma ApplyEntryAt(m: map<string, string>, e: string, k: string)
    ensures k in ApplyEntry(m, e) <==> k in m || Writes(e, k)
    ensures Writes(e, k) ==> ApplyEntry(m, e)[k] == ValueOf(e)
    ensures !Writes(e, k) && k in m ==> ApplyEntry(m, e)[k] == m[k]
  {
    if FindGroup(e).Some? {
      AssignEachAt(m, FindGroup(e).value.members, FindGroup(e).value.display, k);
    }
  }

  /** A key is in the result exactly when it was there before or some entry writes it. */
  lemma {:induction false} AppliedKeys(m: map<string, string>, entries: seq<string>, k: string)
    ensures k in ApplyEntries(m, entries) <==>
      (k in m || exists j :: 0 <= j < |entries| && Writes(entries[j], k))
  {
    if entries != [] {
      var n := |entries| - 1;
      var init := entries[..n];
      AppliedKeys(m, init, k);
      ApplyEntryAt(ApplyEntries(m, init), entries[n], k);
      if exists j :: 0 <= j < |entries| && Writes(entries[j], k) {
        var j :| 0 <= j < |entries| && Writes(entries[j], k);
        if j < n {
          assert Writes(init[j], k);
        }
      }
      if exists j :: 0 <= j < n && Writes(init[j], k) {
        var j :| 0 <= j < n && Writes(init[j], k);
        assert Writes(entries[j], k);
      }
    }
  }

  /** Later entries overwrite earlier ones: the last entry that writes a key decides its value. */
  lemma {:induction false} LastWriterWins(m: map<string, string>, entries: seq<string>, k: string, j: nat)
    requires j < |entries| && Writes(entries[j], k)
    requires forall j' | j < j' < |entries| :: !Writes(entries[j'], k)
    ensures k in ApplyEntries(m, entries)
    ensures ApplyEntries(m, entries)[k] == ValueOf(entries[j])
  {
    var n := |entries| - 1;
    var init := entries[..n];
    if j < n {
      assert forall j' | j < j' < n :: init[j'] == entries[j'];
      LastWriterWins(m, init, k, j);
    }
    ApplyEntryAt(ApplyEntries(m, init), entries[n], k);
  }

  /** The index of the last entry writing `k`, given that there is one. */
  lemma {:induction false} LastWriter(entries: seq<string>, k: string) returns (j: nat)
    requires exists j :: 0 <= j < |entries| && Writes(entries[j], k)
    ensures j < |entries| && Writes(entries[j], k)
    ensures forall j' | j < j' < |entries| :: !Writes(entries[j'], k)
  {
    var n := |entries| - 1;
    if Writes(entries[n], k) {
      j := n;
    } else {
      var init := entries[..n];
      var w :| 0 <= w < |entries| && Writes(entries[w], k);
      assert Writes(init[w], k);
      j := LastWriter(init, k);
      assert forall j' | j < j' < n :: entries[j'] == init[j'];
    }
  }

  /**
    The parser never fails, and every key it produces was written by some
    entry: the value is that entry itself, or the label of its group, as
    written by the last entry that writes the key.
  */
  lemma ParsedKeyOrigin(spec: string, k: string)
    requires k in Parsed(spec)
    ensures exists j :: (0 <= j < |Split(spec, ' ')| && Writes(Split(spec, ' ')[j], k)
      && Parsed(spec)[k] == ValueOf(Split(spec, ' ')[j]))
  {
    var entries := Split(spec, ' ');
    AppliedKeys(map[], entries, k);
    var j := LastWriter(entries, k);
    LastWriterWins(map[], entries, k, j);
  }

  /** Every key of the parsed map is a whole entry that is no group, or one
      rune of the members of some group. */
  lemma ParsedKeysAreEntriesOrRunes(spec: string, k: string)
    requires k in Parsed(spec)
    ensures var es := Split(spec, ' ');
      (k in es && FindGroup(k).None?)
      || (|k| == 1 && exists j :: 0 <= j < |es| && FindGroup(es[j]).Some? && k[0] in FindGroup(es[j]).value.members)
  {
    ParsedKeyOrigin(spec, k);
  }

  /** An entry without a group, that no later entry overwrites, maps to itself. */
  lemma UngroupedEntryMapsToItself(spec: string, j: nat)
    requires j < |Split(spec, ' ')|
    requires FindGroup(Split(spec, ' ')[j]).None?
    requires forall j' | j < j' < |Split(spec, ' ')| :: !Writes(Split(spec, ' ')[j'], Split(spec, ' ')[j])
    ensures Split(spec, ' ')[j] in Parsed(spec)
    ensures Parsed(spec)[Split(spec, ' ')[j]] == Split(spec, ' ')[j]
  {
    LastWriterWins(map[], Split(spec, ' '), Split(spec, ' ')[j], j);
  }

  /** Each member rune of a grouped entry, unless a later entry overwrites it, maps to the label. */
  lemma GroupMembersMapToLabel(spec: string, j: nat, c: char)
    requires j < |Split(spec, ' ')|
    requires FindGroup(Split(spec, ' ')[j]).Some?
    requires c in FindGroup(Split(spec, ' ')[j]).value.members
    requires forall j' | j < j' < |Split(spec, ' ')| :: !Writes(Split(spec, ' ')[j'], [c])
    ensures [c] in Parsed(spec)
    ensures Parsed(spec)[[c]] == FindGroup(Split(spec, ' ')[j]).value.display
  {
    LastWriterWins(map[], Split(spec, ' '), [c], j);
  }

  /** Without a label, or without members, an entry is no group. */
  lemma EmptyLabelOrMembersIsNoGroup()
    ensures FindGroup("X()").None?
    ensures FindGroup("(AB)").None?
  {
    NoMatchIn("X()");
    NoMatchIn("(AB)");
  }

  /** An entry with no '(' after its first rune followed, past at least one
      rune, by a ')' is no group. */
  lemma NoMatchIn(g: string)
    requires forall p, q | 0 < p && p + 1 < q < |g| :: !(g[p] == '(' && g[q] == ')')
    ensures FindGroup(g).None?
  {
  }

  /** The label is greedy: in "A(B)C(D)" it runs to the last usable '('. */
  lemma GreedyLabel()
    ensures FindGroup("A(B)C(D)") == Some(Group("A(B)C", "D"))
  {
    var g := "A(B)C(D)";
    assert LineEnd(g, 0) == 8;
    assert LastIndexIn(g, ')', 0, 8) == Some(7);
    assert LastIndexIn(g, '(', 1, 6) == Some(5);
    assert MatchFrom(g, 0) == Some(Span(0, 5, 7));
    assert g[0..5] == "A(B)C" && g[6..7] == "D";
  }

  /** A doubled space yields an empty entry, and "" maps to "". */
  lemma DoubledSpaceGivesEmptyEntry()
    ensures "" in Parsed("a  b") && Parsed("a  b")[""] == ""
  {
    var entries := ["a", "", "b"];
    SplitJoin(entries, ' ');
    assert Join(entries, ' ') == "a  b";
    NoMatchIn("");
    NoMatchIn("b");
    UngroupedEntryMapsToItself("a  b", 1);
  }
}
