/**
 * The track table optimize_playlist works on, the valid/invalid split by key,
 * the per-key groups and the BPM sort applied inside each group.
 */
module Tracks {
  import opened Camelot

  /**
   * One row of the table. `key` is the Key cell (a missing cell is any
   * string outside the 24 codes), `bpm` the BPM cell, and `id` stands for the
   * rest of the row (artist, title, index label), so equal rows are the same row.
   */
  datatype Row = Row(key: string, bpm: int, id: nat)

  /** The table: whether a column named exactly "Key" exists, and its rows in order. */
  datatype Table = Table(hasKeyColumn: bool, rows: seq<Row>)

  /** The energy strategies the sort dispatches on; any other label sorts nothing. */
  datatype EnergyMode = RampUp | RampDown | Wave | Other

  const RampUpLabel: string := "Ramp Up (Low -> High)"
  const RampDownLabel: string := "Ramp Down (High -> Low)"
  const WaveLabel: string := "Wave (Mixed)"

  /** The `energy_mode` string comparisons of optimize_playlist, as a closed choice. */
  function ModeOf(energyMode: string): (mode: EnergyMode)
    ensures mode == RampUp <==> energyMode == RampUpLabel
    ensures mode == RampDown <==> energyMode == RampDownLabel
    ensures mode == Wave <==> energyMode == WaveLabel
  {
    if energyMode == RampUpLabel then RampUp
    else if energyMode == RampDownLabel then RampDown
    else if energyMode == WaveLabel then Wave
    else Other
  }

  /** The Key column as a list (`df['Key']`). */
  function KeysOf(rows: seq<Row>): (keys: seq<string>)
    ensures |keys| == |rows|
    ensures forall i :: 0 <= i < |rows| ==> keys[i] == rows[i].key
  {
    if rows == [] then [] else [rows[0].key] + KeysOf(rows[1..])
  }

  /** `df[df['Key'].isin(CAMELOT_ORDER)]`: the rows with a valid code, in table order. */
  function ValidRows(rows: seq<Row>): seq<Row>
  {
    if rows == [] then []
    else if IsCamelotKey(rows[0].key) then [rows[0]] + ValidRows(rows[1..])
    else ValidRows(rows[1..])
  }

  /** `df[~df['Key'].isin(CAMELOT_ORDER)]`: the other rows, in table order. */
  function InvalidRows(rows: seq<Row>): seq<Row>
  {
    if rows == [] then []
    else if IsCamelotKey(rows[0].key) then InvalidRows(rows[1..])
    else [rows[0]] + InvalidRows(rows[1..])
  }

  /** A row is valid exactly when its key is one of the 24 codes; every other row is invalid. */
  lemma {:induction false} ValidInvalidMembers(rows: seq<Row>, r: Row)
    ensures r in ValidRows(rows) <==> r in rows && IsCamelotKey(r.key)
    ensures r in InvalidRows(rows) <==> r in rows && !IsCamelotKey(r.key)
  {
    if rows != [] {
      ValidInvalidMembers(rows[1..], r);
      assert rows == [rows[0]] + rows[1..];
    }
  }

  /** Splitting by key validity loses and duplicates no row. */
  lemma {:induction false} ValidInvalidPartition(rows: seq<Row>)
    ensures multiset(ValidRows(rows)) + multiset(InvalidRows(rows)) == multiset(rows)
    ensures |ValidRows(rows)| + |InvalidRows(rows)| == |rows|
  {
    if rows != [] {
      ValidInvalidPartition(rows[1..]);
      assert rows == [rows[0]] + rows[1..];
    }
  }

  /** `groups.get_group(key)`: the rows with this exact key, in table order. */
  function RowsWithKey(rows: seq<Row>, key: string): seq<Row>
  {
    if rows == [] then []
    else if rows[0].key == key then [rows[0]] + RowsWithKey(rows[1..], key)
    else RowsWithKey(rows[1..], key)
  }

  /** The group of `key` holds exactly the rows carrying that key. */
  lemma {:induction false} RowsWithKeyMembers(rows: seq<Row>, key: string, r: Row)
    ensures r in RowsWithKey(rows, key) <==> r in rows && r.key == key
  {
    if rows != [] {
      RowsWithKeyMembers(rows[1..], key, r);
      assert rows == [rows[0]] + rows[1..];
    }
  }

  /** Selecting one key's rows commutes with concatenation. */
  lemma {:induction false} RowsWithKeyAppend(a: seq<Row>, b: seq<Row>, key: string)
    ensures RowsWithKey(a + b, key) == RowsWithKey(a, key) + RowsWithKey(b, key)
  {
    if a == [] {
      assert a + b == b;
    } else {
      RowsWithKeyAppend(a[1..], b, key);
      assert a + b == [a[0]] + (a[1..] + b);
      if a[0].key == key {
        var x, y := RowsWithKey(a[1..], key), RowsWithKey(b, key);
        assert [a[0]] + (x + y) == ([a[0]] + x) + y;
      }
    }
  }

  /** If every row has key `k`, selecting `key` keeps all rows or none. */
  lemma {:induction false} RowsWithKeyUniform(g: seq<Row>, k: string, key: string)
    requires forall i :: 0 <= i < |g| ==> g[i].key == k
    ensures RowsWithKey(g, key) == if key == k then g else []
  {
    if g != [] {
      RowsWithKeyUniform(g[1..], k, key);
    }
  }

  /** A valid key's rows are found among the valid rows, in the same order. */
  lemma {:induction false} RowsWithKeyOfValid(rows: seq<Row>, key: string)
    ensures RowsWithKey(ValidRows(rows), key) == if IsCamelotKey(key) then RowsWithKey(rows, key) else []
    ensures RowsWithKey(InvalidRows(rows), key) == if IsCamelotKey(key) then [] else RowsWithKey(rows, key)
  {
    if rows != [] {
      RowsWithKeyOfValid(rows[1..], key);
    }
  }

  /** `a` may come before `b` in a group sorted by BPM in the given direction. */
  predicate InOrder(a: Row, b: Row, ascending: bool)
  {
    if ascending then a.bpm <= b.bpm else a.bpm >= b.bpm
  }

  /** Every earlier row may come before every later one. */
  predicate SortedBy(s: seq<Row>, ascending: bool)
  {
    forall i, j :: 0 <= i < j < |s| ==> InOrder(s[i], s[j], ascending)
  }

  /** Place `x` before the first row of `s` it may precede. */
  function InsertByBpm(x: Row, s: seq<Row>, ascending: bool): (r: seq<Row>)
    ensures multiset(r) == multiset(s) + multiset{x}
  {
    if s == [] || InOrder(x, s[0], ascending) then
      [x] + s
    else
      assert s == [s[0]] + s[1..];
      [s[0]] + InsertByBpm(x, s[1..], ascending)
  }

  /** A row that may precede every row of a sorted group can lead it. */
  lemma SortedCons(h: Row, t: seq<Row>, ascending: bool)
    requires SortedBy(t, ascending)
    requires forall k :: 0 <= k < |t| ==> InOrder(h, t[k], ascending)
    ensures SortedBy([h] + t, ascending)
  {
    var r := [h] + t;
    forall i, j | 0 <= i < j < |r| ensures InOrder(r[i], r[j], ascending) {
      if i == 0 {
        assert r[j] == t[j - 1];
      } else {
        assert r[i] == t[i - 1] && r[j] == t[j - 1];
      }
    }
  }

  /** Dropping the first row of a sorted group leaves it sorted. */
  lemma SortedTail(s: seq<Row>, ascending: bool)
    requires s != [] && SortedBy(s, ascending)
    ensures SortedBy(s[1..], ascending)
  {
    forall i, j | 0 <= i < j < |s| - 1 ensures InOrder(s[1..][i], s[1..][j], ascending) {
      assert s[1..][i] == s[i + 1] && s[1..][j] == s[j + 1];
    }
  }

  /** Inserting into a sorted group keeps it sorted. */
  lemma {:induction false} InsertByBpmSorted(x: Row, s: seq<Row>, ascending: bool)
    requires SortedBy(s, ascending)
    ensures SortedBy(InsertByBpm(x, s, ascending), ascending)
  {
    if s == [] || InOrder(x, s[0], ascending) {
      forall k | 0 <= k < |s| ensures InOrder(x, s[k], ascending) {
        assert k == 0 || InOrder(s[0], s[k], ascending);
      }
      SortedCons(x, s, ascending);
    } else {
      var tail := InsertByBpm(x, s[1..], ascending);
      SortedTail(s, ascending);
      InsertByBpmSorted(x, s[1..], ascending);
      forall k | 0 <= k < |tail| ensures InOrder(s[0], tail[k], ascending) {
        assert tail[k] in multiset(tail);
        if tail[k] != x {
          assert tail[k] in s[1..];
          var m :| 0 <= m < |s| - 1 && s[1..][m] == tail[k];
          assert s[m + 1] == tail[k];
        }
      }
      SortedCons(s[0], tail, ascending);
    }
  }

  /**
   * `sort_values(by='BPM', ascending=...)`: a reordering of the group whose
   * BPM values run in the requested direction. Rows with equal BPM may come
   * out in any order in pandas; this is one such order.
   */
  function SortByBpm(s: seq<Row>, ascending: bool): (r: seq<Row>)
    ensures SortedBy(r, ascending)
    ensures multiset(r) == multiset(s)
  {
    if s == [] then
      []
    else
      assert s == [s[0]] + s[1..];
      var sorted := SortByBpm(s[1..], ascending);
      InsertByBpmSorted(s[0], sorted, ascending);
      InsertByBpm(s[0], sorted, ascending)
  }

  /**
   * The ordering applied to one key group: BPM ascending for Ramp Up,
   * descending for Ramp Down, untouched for Wave and any other label.
   */
  function SortGroup(group: seq<Row>, mode: EnergyMode): (r: seq<Row>)
    ensures multiset(r) == multiset(group)
    ensures mode == RampUp ==> SortedBy(r, true)
    ensures mode == RampDown ==> SortedBy(r, false)
    ensures mode == Wave || mode == Other ==> r == group
  {
    match mode
    case RampUp => SortByBpm(group, true)
    case RampDown => SortByBpm(group, false)
    case Wave => group
    case Other => group
  }
}
