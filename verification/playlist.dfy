/**
 * optimize_playlist end to end: split the table by key validity, order the
 * distinct valid keys into a harmonic path, lay the key groups out along the
 * path with each group sorted for the energy mode, and put the rows without a
 * valid key last.
 */
module Playlist {
  import opened Seqs
  import opened Camelot
  import opened KeyPath
  import opened Tracks

  /** The groups of `valid` laid out in the order of `path`, each sorted for `mode`. */
  function Arrange(valid: seq<Row>, path: seq<string>, mode: EnergyMode): seq<Row>
    decreases |path|
  {
    if path == [] then
      []
    else
      var k := path[|path| - 1];
      Arrange(valid, path[..|path| - 1], mode) + SortGroup(RowsWithKey(valid, k), mode)
  }

  /** The key path optimize_playlist computes for a table: greedy over the distinct valid keys. */
  function KeyPathOf(rows: seq<Row>): seq<string>
  {
    var uniqueKeys := Unique(KeysOf(ValidRows(rows)));
    if uniqueKeys == [] then [] else GreedyPath(CamelotDistance, uniqueKeys)
  }

  /**
   * What optimize_playlist returns: the table itself when it has no Key
   * column or no valid key, otherwise the arranged valid rows followed by
   * the invalid rows.
   */
  function Optimize(df: Table, mode: EnergyMode): Table
  {
    if !df.hasKeyColumn || Unique(KeysOf(ValidRows(df.rows))) == [] then
      df
    else
      Table(df.hasKeyColumn, Arrange(ValidRows(df.rows), KeyPathOf(df.rows), mode) + InvalidRows(df.rows))
  }

  /**
   * The build loop of optimize_playlist: one key group per path entry, sorted
   * by BPM as the energy mode asks, then the invalid rows if there are any.
   * `pd.concat` of the collected frames is the concatenation of their rows.
   */
  method BuildPlaylist(valid: seq<Row>, invalid: seq<Row>, sortedKeys: seq<string>, energyMode: string)
    returns (finalPlaylist: seq<Row>)
    ensures finalPlaylist == Arrange(valid, sortedKeys, ModeOf(energyMode)) + invalid
  {
    finalPlaylist := [];
    for i := 0 to |sortedKeys|
      invariant finalPlaylist == Arrange(valid, sortedKeys[..i], ModeOf(energyMode))
    {
      var keyGroup := RowsWithKey(valid, sortedKeys[i]);
      if energyMode == RampUpLabel {
        keyGroup := SortByBpm(keyGroup, true);
      } else if energyMode == RampDownLabel {
        keyGroup := SortByBpm(keyGroup, false);
      }
      assert sortedKeys[..i + 1][..i] == sortedKeys[..i];
      finalPlaylist := finalPlaylist + keyGroup;
    }
    assert sortedKeys[..|sortedKeys|] == sortedKeys;
    if invalid != [] {
      finalPlaylist := finalPlaylist + invalid;
    }
  }

  /** optimize_playlist, step by step; its result is Optimize of the table and the mode's label. */
  method OptimizePlaylist(df: Table, energyMode: string) returns (result: Table)
    ensures result == Optimize(df, ModeOf(energyMode))
  {
    if !df.hasKeyColumn {
      return df;
    }
    var validRows := ValidRows(df.rows);
    var invalidRows := InvalidRows(df.rows);
    var uniqueKeys := Unique(KeysOf(validRows));
    if uniqueKeys == [] {
      return df;
    }
    var sortedKeys := OrderKeys(uniqueKeys);
    var finalPlaylist := BuildPlaylist(validRows, invalidRows, sortedKeys, energyMode);
    result := Table(df.hasKeyColumn, finalPlaylist);
  }

  // ----- the key path -----

  /** A key occurs in the Key column exactly when some row carries it. */
  lemma {:induction false} KeysOfRowsWithKey(rows: seq<Row>, k: string)
    ensures k in KeysOf(rows) <==> RowsWithKey(rows, k) != []
  {
    if rows != [] {
      KeysOfRowsWithKey(rows[1..], k);
      assert KeysOf(rows) == [rows[0].key] + KeysOf(rows[1..]);
    }
  }

  /** `unique()` of an empty column is empty and of a non-empty column is not. */
  lemma UniqueEmpty(s: seq<string>)
    ensures Unique(s) == [] <==> s == []
  {
  }

  /** The key path visits exactly the valid keys that occur in the table. */
  lemma KeyPathMembers(rows: seq<Row>, k: string)
    ensures k in KeyPathOf(rows) <==> IsCamelotKey(k) && RowsWithKey(rows, k) != []
  {
    var valid := ValidRows(rows);
    var u := Unique(KeysOf(valid));
    KeysOfRowsWithKey(valid, k);
    RowsWithKeyOfValid(rows, k);
    if u != [] {
      GreedyPathPermutation(CamelotDistance, u);
      assert k in KeyPathOf(rows) <==> k in multiset(GreedyPath(CamelotDistance, u));
    }
  }

  /** The key path holds each key once and starts with the key of the first valid row. */
  lemma KeyPathStart(rows: seq<Row>)
    ensures NoDup(KeyPathOf(rows))
    ensures ValidRows(rows) != [] ==> KeyPathOf(rows) != [] && KeyPathOf(rows)[0] == ValidRows(rows)[0].key
  {
    var u := Unique(KeysOf(ValidRows(rows)));
    UniqueEmpty(KeysOf(ValidRows(rows)));
    if u != [] {
      GreedyPathPermutation(CamelotDistance, u);
    }
  }

  /**
   * Each key after the first on the path is a nearest one to its predecessor
   * among the keys not yet placed; among equally near keys it is the one
   * whose first track comes earliest among the valid rows.
   */
  lemma KeyPathChoice(rows: seq<Row>, i: nat, j: nat)
    requires 0 < i < j
    ensures var p, keys := KeyPathOf(rows), KeysOf(ValidRows(rows));
      j < |p| ==>
      && p[i] in keys && p[j] in keys
      && CamelotDistance(p[i - 1], p[i]) <= CamelotDistance(p[i - 1], p[j])
      && (CamelotDistance(p[i - 1], p[i]) == CamelotDistance(p[i - 1], p[j]) ==> IndexOf(keys, p[i]) < IndexOf(keys, p[j]))
  {
    var p, keys := KeyPathOf(rows), KeysOf(ValidRows(rows));
    var u := Unique(keys);
    if j < |p| {
      GreedyPathChoice(CamelotDistance, u, i, j);
      if CamelotDistance(p[i - 1], p[i]) == CamelotDistance(p[i - 1], p[j]) {
        var a, b := IndexOf(u, p[i]), IndexOf(u, p[j]);
        UniqueFirstAppearance(keys, a, b);
      }
    }
  }

  // ----- the arrangement of the valid rows -----

  /** Every row of a sorted group carries the group's key. */
  lemma GroupKeys(valid: seq<Row>, k: string, mode: EnergyMode)
    ensures forall a :: 0 <= a < |SortGroup(RowsWithKey(valid, k), mode)| ==> SortGroup(RowsWithKey(valid, k), mode)[a].key == k
  {
    var g := RowsWithKey(valid, k);
    var sorted := SortGroup(g, mode);
    forall a | 0 <= a < |sorted| ensures sorted[a].key == k {
      assert sorted[a] in multiset(g);
      RowsWithKeyMembers(valid, k, sorted[a]);
    }
  }

  /** The rows whose key is on `path`, in table order. */
  function RowsKeyedIn(rows: seq<Row>, path: seq<string>): seq<Row>
  {
    if rows == [] then []
    else if rows[0].key in path then [rows[0]] + RowsKeyedIn(rows[1..], path)
    else RowsKeyedIn(rows[1..], path)
  }

  /** An empty path selects no row. */
  lemma {:induction false} RowsKeyedInNone(rows: seq<Row>)
    ensures RowsKeyedIn(rows, []) == []
  {
    if rows != [] {
      RowsKeyedInNone(rows[1..]);
    }
  }

  /** Adding a new key to the path adds exactly that key's rows. */
  lemma {:induction false} RowsKeyedInExtend(rows: seq<Row>, path: seq<string>, k: string)
    requires k !in path
    ensures multiset(RowsKeyedIn(rows, path + [k])) == multiset(RowsKeyedIn(rows, path)) + multiset(RowsWithKey(rows, k))
  {
    if rows != [] {
      RowsKeyedInExtend(rows[1..], path, k);
    }
  }

  /** When every row's key is on the path, selecting by the path keeps every row. */
  lemma {:induction false} RowsKeyedInAll(rows: seq<Row>, path: seq<string>)
    requires forall a :: 0 <= a < |rows| ==> rows[a].key in path
    ensures RowsKeyedIn(rows, path) == rows
  {
    if rows != [] {
      RowsKeyedInAll(rows[1..], path);
    }
  }

  /** Along a duplicate-free path the arrangement is a reordering of the rows keyed on it. */
  lemma {:induction false} ArrangeMultiset(valid: seq<Row>, path: seq<string>, mode: EnergyMode)
    requires NoDup(path)
    ensures multiset(Arrange(valid, path, mode)) == multiset(RowsKeyedIn(valid, path))
    decreases |path|
  {
    if path == [] {
      RowsKeyedInNone(valid);
    } else {
      var init, k := path[..|path| - 1], path[|path| - 1];
      assert path == init + [k];
      ArrangeMultiset(valid, init, mode);
      RowsKeyedInExtend(valid, init, k);
    }
  }

  /** Along a duplicate-free path, the rows of key k in the arrangement are k's sorted group, if k is on the path. */
  lemma {:induction false} ArrangeRowsWithKey(valid: seq<Row>, path: seq<string>, mode: EnergyMode, k: string)
    requires NoDup(path)
    ensures RowsWithKey(Arrange(valid, path, mode), k) == if k in path then SortGroup(RowsWithKey(valid, k), mode) else []
    decreases |path|
  {
    if path != [] {
      var init, last := path[..|path| - 1], path[|path| - 1];
      assert path == init + [last];
      var g := SortGroup(RowsWithKey(valid, last), mode);
      ArrangeRowsWithKey(valid, init, mode, k);
      RowsWithKeyAppend(Arrange(valid, init, mode), g, k);
      GroupKeys(valid, last, mode);
      RowsWithKeyUniform(g, last, k);
    }
  }

  /**
   * The rows of `s` follow `path`: every key is on the path and the keys'
   * places on the path never go back, so each key's rows form one block and
   * the blocks come in path order.
   */
  ghost predicate FollowsPath(s: seq<Row>, path: seq<string>)
  {
    && (forall a :: 0 <= a < |s| ==> s[a].key in path)
    && (forall a, b {:trigger IndexOf(path, s[a].key), IndexOf(path, s[b].key)} ::
          0 <= a < b < |s| ==> IndexOf(path, s[a].key) <= IndexOf(path, s[b].key))
  }

  /** Appending one block of a new last key keeps the rows following the extended path. */
  lemma FollowsPathAppend(s: seq<Row>, g: seq<Row>, path: seq<string>, k: string)
    requires FollowsPath(s, path) && k !in path
    requires forall a :: 0 <= a < |g| ==> g[a].key == k
    ensures FollowsPath(s + g, path + [k])
  {
    var t, p := s + g, path + [k];
    assert IndexOf(p, k) == |path| by {
      assert p[|path|] == k;
    }
    forall a | 0 <= a < |s| ensures IndexOf(p, s[a].key) == IndexOf(path, s[a].key) {
      IndexOfAppend(path, k, s[a].key);
    }
    forall a, b | 0 <= a < b < |t| ensures IndexOf(p, t[a].key) <= IndexOf(p, t[b].key) {
      if b < |s| {
        assert t[a] == s[a] && t[b] == s[b];
      } else if a < |s| {
        assert t[a] == s[a] && t[b] == g[b - |s|];
      } else {
        assert t[a] == g[a - |s|] && t[b] == g[b - |s|];
      }
    }
  }

  /** Along a duplicate-free path the arrangement follows the path. */
  lemma {:induction false} ArrangeFollowsPath(valid: seq<Row>, path: seq<string>, mode: EnergyMode)
    requires NoDup(path)
    ensures FollowsPath(Arrange(valid, path, mode), path)
    decreases |path|
  {
    if path != [] {
      var init, last := path[..|path| - 1], path[|path| - 1];
      assert path == init + [last];
      ArrangeFollowsPath(valid, init, mode);
      GroupKeys(valid, last, mode);
      FollowsPathAppend(Arrange(valid, init, mode), SortGroup(RowsWithKey(valid, last), mode), init, last);
    }
  }

  // ----- optimize_playlist as a whole -----

  /** Every valid row's key is on the key path. */
  lemma ValidKeysOnPath(rows: seq<Row>)
    ensures forall a :: 0 <= a < |ValidRows(rows)| ==> ValidRows(rows)[a].key in KeyPathOf(rows)
  {
    var valid := ValidRows(rows);
    forall a | 0 <= a < |valid| ensures valid[a].key in KeyPathOf(rows) {
      var r := valid[a];
      ValidInvalidMembers(rows, r);
      RowsWithKeyMembers(rows, r.key, r);
      KeyPathMembers(rows, r.key);
    }
  }

  /** Without a valid row the invalid rows are the whole table. */
  lemma {:induction false} NoValidAllInvalid(rows: seq<Row>)
    requires ValidRows(rows) == []
    ensures InvalidRows(rows) == rows
  {
    if rows != [] {
      NoValidAllInvalid(rows[1..]);
    }
  }

  /** The arranged valid rows are a reordering of the valid rows. */
  lemma ArrangedValidRows(rows: seq<Row>, mode: EnergyMode)
    ensures multiset(Arrange(ValidRows(rows), KeyPathOf(rows), mode)) == multiset(ValidRows(rows))
  {
    var valid, path := ValidRows(rows), KeyPathOf(rows);
    KeyPathStart(rows);
    ArrangeMultiset(valid, path, mode);
    ValidKeysOnPath(rows);
    RowsKeyedInAll(valid, path);
  }

  /**
   * optimize_playlist returns the table untouched when it has no Key column
   * or no row with a valid key.
   */
  lemma OptimizeUnchanged(df: Table, mode: EnergyMode)
    requires !df.hasKeyColumn || forall a :: 0 <= a < |df.rows| ==> !IsCamelotKey(df.rows[a].key)
    ensures Optimize(df, mode) == df
  {
    if df.hasKeyColumn {
      var valid := ValidRows(df.rows);
      if valid != [] {
        ValidInvalidMembers(df.rows, valid[0]);
      }
      UniqueEmpty(KeysOf(valid));
    }
  }

  /** No track is lost, duplicated or invented, and the columns stay as they were. */
  lemma OptimizePermutation(df: Table, mode: EnergyMode)
    ensures multiset(Optimize(df, mode).rows) == multiset(df.rows)
    ensures Optimize(df, mode).hasKeyColumn == df.hasKeyColumn
  {
    if df.hasKeyColumn && Unique(KeysOf(ValidRows(df.rows))) != [] {
      ArrangedValidRows(df.rows, mode);
      ValidInvalidPartition(df.rows);
    }
  }

  /**
   * The tracks with a valid key come first, and the tracks without one come
   * last, in their original order.
   */
  lemma OptimizeValidThenInvalid(df: Table, mode: EnergyMode)
    requires df.hasKeyColumn
    ensures var r, n := Optimize(df, mode).rows, |ValidRows(df.rows)|;
      && n <= |r|
      && (forall a :: 0 <= a < n ==> IsCamelotKey(r[a].key))
      && r[n..] == InvalidRows(df.rows)
  {
    var valid := ValidRows(df.rows);
    UniqueEmpty(KeysOf(valid));
    if valid == [] {
      NoValidAllInvalid(df.rows);
    } else {
      var arranged := Arrange(valid, KeyPathOf(df.rows), mode);
      var r := Optimize(df, mode).rows;
      ArrangedValidRows(df.rows, mode);
      assert |arranged| == |valid| by {
        assert |multiset(arranged)| == |multiset(valid)|;
      }
      assert r == arranged + InvalidRows(df.rows);
      forall a | 0 <= a < |valid| ensures IsCamelotKey(r[a].key) {
        assert r[a] == arranged[a];
        assert arranged[a] in multiset(valid);
        ValidInvalidMembers(df.rows, arranged[a]);
      }
    }
  }

  /**
   * The valid tracks are laid out along the key path: each key's tracks form
   * one block, and the blocks come in the order of the path.
   */
  lemma OptimizeFollowsKeyPath(df: Table, mode: EnergyMode)
    requires df.hasKeyColumn
    ensures |ValidRows(df.rows)| <= |Optimize(df, mode).rows|
    ensures FollowsPath(Optimize(df, mode).rows[..|ValidRows(df.rows)|], KeyPathOf(df.rows))
  {
    var valid := ValidRows(df.rows);
    OptimizeValidThenInvalid(df, mode);
    UniqueEmpty(KeysOf(valid));
    if valid != [] {
      var r := Optimize(df, mode).rows;
      var arranged := Arrange(valid, KeyPathOf(df.rows), mode);
      KeyPathStart(df.rows);
      ArrangeFollowsPath(valid, KeyPathOf(df.rows), mode);
      ArrangedValidRows(df.rows, mode);
      assert |arranged| == |valid| by {
        assert |multiset(arranged)| == |multiset(valid)|;
      }
      assert r[..|valid|] == arranged;
    }
  }

  /**
   * Per key: the tracks of a valid key come out as that key's tracks sorted
   * for the energy mode; the tracks of any other Key value keep their order.
   */
  lemma OptimizeGroups(df: Table, mode: EnergyMode, k: string)
    requires df.hasKeyColumn
    ensures RowsWithKey(Optimize(df, mode).rows, k)
      == if IsCamelotKey(k) then SortGroup(RowsWithKey(df.rows, k), mode) else RowsWithKey(df.rows, k)
  {
    var valid, invalid := ValidRows(df.rows), InvalidRows(df.rows);
    var path := KeyPathOf(df.rows);
    RowsWithKeyOfValid(df.rows, k);
    KeysOfRowsWithKey(valid, k);
    UniqueEmpty(KeysOf(valid));
    if valid != [] {
      KeyPathStart(df.rows);
      KeyPathMembers(df.rows, k);
      RowsWithKeyAppend(Arrange(valid, path, mode), invalid, k);
      ArrangeRowsWithKey(valid, path, mode, k);
    }
  }

  /**
   * The energy modes inside each valid key's block: BPM never falls for
   * Ramp Up, never rises for Ramp Down, and Wave or an unknown label keeps
   * the table order.
   */
  lemma EnergyWithinKey(df: Table, mode: EnergyMode, k: string)
    requires df.hasKeyColumn && IsCamelotKey(k)
    ensures mode == RampUp ==> SortedBy(RowsWithKey(Optimize(df, mode).rows, k), true)
    ensures mode == RampDown ==> SortedBy(RowsWithKey(Optimize(df, mode).rows, k), false)
    ensures mode == Wave || mode == Other ==> RowsWithKey(Optimize(df, mode).rows, k) == RowsWithKey(df.rows, k)
  {
    OptimizeGroups(df, mode, k);
  }
}
