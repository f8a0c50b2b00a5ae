/**
 * The nearest-neighbour key ordering of optimize_playlist: starting from the
 * first distinct key, repeatedly move the remaining key closest to the end of
 * the path onto the path.
 */
module KeyPath {
  import opened Seqs
  import opened Camelot

  /** A key-to-key transition cost, as the `key=` function handed to `min`. */
  type Distance = (string, string) -> nat

  /**
   * pandas `Series.unique()`: the distinct values in order of first
   * appearance.
   */
  function Unique(s: seq<string>): (u: seq<string>)
    ensures NoDup(u)
    ensures forall k :: k in u <==> k in s
    ensures s != [] ==> u != [] && u[0] == s[0]
  {
    if s == [] then
      []
    else
      var u := Unique(s[..|s| - 1]);
      var last := s[|s| - 1];
      assert s == s[..|s| - 1] + [last];
      if last in u then u else u + [last]
  }

  /** Looking up an element of a prefix is not affected by what follows it. */
  lemma IndexOfAppend(s: seq<string>, x: string, k: string)
    requires k in s
    ensures IndexOf(s + [x], k) == IndexOf(s, k)
  {
    var i := IndexOf(s, k);
    assert (s + [x])[i] == k;
    assert forall j :: 0 <= j < i ==> (s + [x])[j] == s[j];
  }

  /** `unique()` lists the distinct values in the order they first appear. */
  lemma {:induction false} UniqueFirstAppearance(s: seq<string>, a: nat, b: nat)
    requires a < b < |Unique(s)|
    ensures IndexOf(s, Unique(s)[a]) < IndexOf(s, Unique(s)[b])
  {
    var init, last := s[..|s| - 1], s[|s| - 1];
    assert s == init + [last];
    var u := Unique(init);
    if b < |u| {
      UniqueFirstAppearance(init, a, b);
      IndexOfAppend(init, last, u[a]);
      IndexOfAppend(init, last, u[b]);
    } else {
      assert last !in init && Unique(s)[b] == last;
      IndexOfAppend(init, last, u[a]);
      assert IndexOf(s, last) == |init|;
    }
  }

  /**
   * `min(remaining, key=lambda k: dist(current, k))`: the position of the
   * first remaining key at least distance from `current`. Python's min scans
   * left to right and replaces its candidate only on a strictly smaller key,
   * so it keeps the earlier element on ties.
   */
  function NearestIndex(dist: Distance, current: string, remaining: seq<string>): (i: nat)
    requires remaining != []
    ensures i < |remaining|
    ensures forall j :: 0 <= j < |remaining| ==> dist(current, remaining[i]) <= dist(current, remaining[j])
    ensures forall j :: 0 <= j < i ==> dist(current, remaining[i]) < dist(current, remaining[j])
  {
    if |remaining| == 1 then
      0
    else
      var best := NearestIndex(dist, current, remaining[..|remaining| - 1]);
      var last := |remaining| - 1;
      if dist(current, remaining[last]) < dist(current, remaining[best]) then last else best
  }

  /**
   * The path the loop reaches from `path` with `remaining` keys left: each
   * round appends the nearest remaining key to the end of the path and
   * removes it from `remaining`.
   */
  function GreedyFrom(dist: Distance, path: seq<string>, remaining: seq<string>): (p: seq<string>)
    requires path != []
    ensures |p| == |path| + |remaining|
    ensures p[..|path|] == path
    decreases |remaining|
  {
    if remaining == [] then
      path
    else
      var next := remaining[NearestIndex(dist, path[|path| - 1], remaining)];
      var rest := RemoveFirst(remaining, next);
      RemoveFirstCount(remaining, next);
      var p := GreedyFrom(dist, path + [next], rest);
      assert p[..|path|] == (path + [next])[..|path|] == path;
      p
  }

  /** The loop only moves keys: the path ends up holding its own keys and all remaining ones. */
  lemma {:induction false} GreedyFromPermutes(dist: Distance, path: seq<string>, remaining: seq<string>)
    requires path != []
    ensures multiset(GreedyFrom(dist, path, remaining)) == multiset(path) + multiset(remaining)
    decreases |remaining|
  {
    if remaining != [] {
      var next := remaining[NearestIndex(dist, path[|path| - 1], remaining)];
      var rest := RemoveFirst(remaining, next);
      RemoveFirstCount(remaining, next);
      GreedyFromPermutes(dist, path + [next], rest);
      assert multiset(path + [next]) == multiset(path) + multiset{next};
      assert multiset(remaining) == multiset{next} + multiset(rest);
    }
  }

  /** One round of the loop: the nearest remaining key moves to the end of the path. */
  lemma GreedyFromStep(dist: Distance, path: seq<string>, remaining: seq<string>, next: string)
    requires path != [] && remaining != []
    requires next == remaining[NearestIndex(dist, path[|path| - 1], remaining)]
    ensures GreedyFrom(dist, path, remaining) == GreedyFrom(dist, path + [next], RemoveFirst(remaining, next))
    ensures multiset(path + [next]) + multiset(RemoveFirst(remaining, next)) == multiset(path) + multiset(remaining)
  {
    RemoveFirstCount(remaining, next);
  }

  /** The key path for the distinct keys: seeded with the first key, then greedy. */
  function GreedyPath(dist: Distance, keys: seq<string>): seq<string>
    requires keys != []
  {
    GreedyFrom(dist, [keys[0]], RemoveFirst(keys, keys[0]))
  }

  /**
   * The `while unique_keys` loop of optimize_playlist, with the seeding that
   * precedes it: `sortedKeys` grows by the nearest remaining key each round
   * while `unique` shrinks, and together they always hold the input keys.
   */
  method OrderKeys(uniqueKeys: seq<string>) returns (sortedKeys: seq<string>)
    requires uniqueKeys != []
    ensures sortedKeys == GreedyPath(CamelotDistance, uniqueKeys)
    ensures multiset(sortedKeys) == multiset(uniqueKeys)
    ensures sortedKeys[0] == uniqueKeys[0]
    ensures NoDup(uniqueKeys) ==> NoDup(sortedKeys)
  {
    var unique := uniqueKeys;
    sortedKeys := [unique[0]];
    RemoveFirstCount(unique, unique[0]);
    unique := RemoveFirst(unique, unique[0]);
    while unique != []
      invariant sortedKeys != [] && sortedKeys[0] == uniqueKeys[0]
      invariant multiset(sortedKeys) + multiset(unique) == multiset(uniqueKeys)
      invariant GreedyFrom(CamelotDistance, sortedKeys, unique) == GreedyPath(CamelotDistance, uniqueKeys)
      decreases |unique|
    {
      var currentKey := sortedKeys[|sortedKeys| - 1];
      var bestNextKey := unique[NearestIndex(CamelotDistance, currentKey, unique)];
      GreedyFromStep(CamelotDistance, sortedKeys, unique, bestNextKey);
      sortedKeys := sortedKeys + [bestNextKey];
      unique := RemoveFirst(unique, bestNextKey);
    }
    if NoDup(uniqueKeys) {
      NoDupPermutation(uniqueKeys, sortedKeys);
    }
  }

  /** The path is a duplicate-free permutation of the distinct keys and starts with the first. */
  lemma GreedyPathPermutation(dist: Distance, keys: seq<string>)
    requires keys != [] && NoDup(keys)
    ensures multiset(GreedyPath(dist, keys)) == multiset(keys)
    ensures NoDup(GreedyPath(dist, keys))
    ensures GreedyPath(dist, keys)[0] == keys[0]
  {
    RemoveFirstCount(keys, keys[0]);
    GreedyFromPermutes(dist, [keys[0]], RemoveFirst(keys, keys[0]));
    NoDupPermutation(keys, GreedyPath(dist, keys));
  }

  /** Every key placed after `path` was one of the remaining keys. */
  lemma {:induction false} GreedyFromPlacesRemaining(dist: Distance, path: seq<string>, remaining: seq<string>, j: nat)
    requires path != [] && |path| <= j < |GreedyFrom(dist, path, remaining)|
    ensures GreedyFrom(dist, path, remaining)[j] in remaining
    decreases |remaining|
  {
    var next := remaining[NearestIndex(dist, path[|path| - 1], remaining)];
    var rest := RemoveFirst(remaining, next);
    GreedyFromStep(dist, path, remaining, next);
    var q := GreedyFrom(dist, path + [next], rest);
    if j == |path| {
      assert q[..|path| + 1] == path + [next];
      assert q[j] == next;
    } else {
      GreedyFromPlacesRemaining(dist, path + [next], rest, j);
      RemoveFirstCount(remaining, next);
      assert multiset(rest)[q[j]] > 0;
    }
  }

  /** `remaining` lists keys of `keys` in the order `keys` has them. */
  ghost predicate InKeyOrder(remaining: seq<string>, keys: seq<string>)
  {
    && (forall a :: 0 <= a < |remaining| ==> remaining[a] in keys)
    && (forall a, b {:trigger IndexOf(keys, remaining[a]), IndexOf(keys, remaining[b])} ::
          0 <= a < b < |remaining| ==> IndexOf(keys, remaining[a]) < IndexOf(keys, remaining[b]))
  }

  /** Removing a key keeps the others in key order. */
  lemma RemoveKeepsKeyOrder(remaining: seq<string>, keys: seq<string>, x: string)
    requires InKeyOrder(remaining, keys) && x in remaining
    ensures InKeyOrder(RemoveFirst(remaining, x), keys)
  {
    var m := IndexOf(remaining, x);
    var r := RemoveFirst(remaining, x);
    RemoveFirstShift(remaining, x);
    forall a, b | 0 <= a < b < |r| ensures IndexOf(keys, r[a]) < IndexOf(keys, r[b]) {
      var a', b' := if a < m then a else a + 1, if b < m then b else b + 1;
      assert r[a] == remaining[a'] && r[b] == remaining[b'];
    }
  }

  /** A key in key order occurs once, so removing it leaves none behind. */
  lemma RemoveKeyGone(remaining: seq<string>, keys: seq<string>, x: string)
    requires InKeyOrder(remaining, keys) && x in remaining
    ensures x !in RemoveFirst(remaining, x)
  {
    var m := IndexOf(remaining, x);
    var r := RemoveFirst(remaining, x);
    RemoveFirstShift(remaining, x);
    forall a | 0 <= a < |r| ensures r[a] != x {
      var a' := if a < m then a else a + 1;
      assert r[a] == remaining[a'] && a' != m;
      if a' < m {
        assert IndexOf(keys, remaining[a']) < IndexOf(keys, remaining[m]);
      } else {
        assert IndexOf(keys, remaining[m]) < IndexOf(keys, remaining[a']);
      }
    }
  }

  /**
   * The first round taken from `path`: the key it places is at least as
   * close to the end of `path` as every key placed later, and strictly
   * closer than every later key that comes earlier in `keys`.
   */
  lemma GreedyFromFirstChoice(dist: Distance, keys: seq<string>, path: seq<string>, remaining: seq<string>, j: nat)
    requires path != [] && InKeyOrder(remaining, keys)
    requires |path| < j < |GreedyFrom(dist, path, remaining)|
    ensures var p, i := GreedyFrom(dist, path, remaining), |path|;
      && p[i] in keys && p[j] in keys
      && dist(p[i - 1], p[i]) <= dist(p[i - 1], p[j])
      && (dist(p[i - 1], p[i]) == dist(p[i - 1], p[j]) ==> IndexOf(keys, p[i]) < IndexOf(keys, p[j]))
  {
    var p := GreedyFrom(dist, path, remaining);
    var last := path[|path| - 1];
    var m := NearestIndex(dist, last, remaining);
    var next := remaining[m];
    var rest := RemoveFirst(remaining, next);
    GreedyFromStep(dist, path, remaining, next);
    RemoveKeepsKeyOrder(remaining, keys, next);
    RemoveKeyGone(remaining, keys, next);
    assert p[..|path| + 1] == path + [next];
    assert p[|path| - 1] == last && p[|path|] == next;
    GreedyFromPlacesRemaining(dist, path + [next], rest, j);
    assert p[j] in remaining by {
      RemoveFirstCount(remaining, next);
      assert multiset(rest)[p[j]] > 0;
    }
    var m' := IndexOf(remaining, p[j]);
    assert m' != m;
    if m < m' {
      assert IndexOf(keys, remaining[m]) < IndexOf(keys, remaining[m']);
    }
  }

  /**
   * Greedy choice for the rounds taken from `path` on: the key placed at
   * position i is at least as close to the key before it as every key placed
   * later, and strictly closer than every later key that comes earlier in
   * `keys`.
   */
  lemma {:induction false} GreedyFromChoice(dist: Distance, keys: seq<string>, path: seq<string>, remaining: seq<string>, i: nat, j: nat)
    requires path != [] && InKeyOrder(remaining, keys)
    requires |path| <= i < j < |GreedyFrom(dist, path, remaining)|
    ensures var p := GreedyFrom(dist, path, remaining);
      && p[i] in keys && p[j] in keys
      && dist(p[i - 1], p[i]) <= dist(p[i - 1], p[j])
      && (dist(p[i - 1], p[i]) == dist(p[i - 1], p[j]) ==> IndexOf(keys, p[i]) < IndexOf(keys, p[j]))
    decreases |remaining|
  {
    if i == |path| {
      GreedyFromFirstChoice(dist, keys, path, remaining, j);
    } else {
      var next := remaining[NearestIndex(dist, path[|path| - 1], remaining)];
      GreedyFromStep(dist, path, remaining, next);
      RemoveKeepsKeyOrder(remaining, keys, next);
      GreedyFromChoice(dist, keys, path + [next], RemoveFirst(remaining, next), i, j);
    }
  }

  /** Without duplicates, the keys after the first stand in key order. */
  lemma TailInKeyOrder(keys: seq<string>)
    requires keys != [] && NoDup(keys)
    ensures InKeyOrder(RemoveFirst(keys, keys[0]), keys)
  {
    var rest := RemoveFirst(keys, keys[0]);
    assert IndexOf(keys, keys[0]) == 0;
    assert rest == keys[1..];
    forall a | 0 <= a < |rest| ensures IndexOf(keys, rest[a]) == a + 1 {
      IndexOfNoDup(keys, a + 1);
    }
  }

  /**
   * Greedy choice on the whole path: each key after the first is a nearest
   * key to its predecessor among the keys not yet placed, and on ties it is
   * the earliest of them in `keys`.
   */
  lemma GreedyPathChoice(dist: Distance, keys: seq<string>, i: nat, j: nat)
    requires keys != [] && NoDup(keys)
    requires 0 < i < j < |GreedyPath(dist, keys)|
    ensures var p := GreedyPath(dist, keys);
      && p[i] in keys && p[j] in keys
      && dist(p[i - 1], p[i]) <= dist(p[i - 1], p[j])
      && (dist(p[i - 1], p[i]) == dist(p[i - 1], p[j]) ==> IndexOf(keys, p[i]) < IndexOf(keys, p[j]))
  {
    var rest := RemoveFirst(keys, keys[0]);
    TailInKeyOrder(keys);
    GreedyFromChoice(dist, keys, [keys[0]], rest, i, j);
  }
}
