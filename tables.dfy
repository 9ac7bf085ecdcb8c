/** A database table seen as a map from integer id to row, and the id-ordered
    listings that `ORDER BY id` and a plain table scan produce. */
module Tables {

  /** Every id in the table is positive and smaller than `next`, so `next` is fresh. */
  ghost predicate IdsBelow<T>(m: map<int, T>, next: int) {
    forall k :: k in m ==> 1 <= k < next
  }

  ghost predicate Descending(ks: seq<int>) {
    forall i, j :: 0 <= i < j < |ks| ==> ks[i] > ks[j]
  }

  ghost predicate Ascending(ks: seq<int>) {
    forall i, j :: 0 <= i < j < |ks| ==> ks[i] < ks[j]
  }

  /** The ids of the rows with id at most `hi`, largest first (`ORDER BY id DESC`). */
  function IdsDown<T>(m: map<int, T>, hi: int): (ks: seq<int>)
    ensures forall k :: k in ks <==> k in m && 1 <= k <= hi
    ensures forall k :: k in ks ==> k <= hi
    ensures Descending(ks)
    decreases hi
  {
    if hi < 1 then []
    else
      var rest := IdsDown(m, hi - 1);
      assert forall j :: 0 <= j < |rest| ==> rest[j] in rest;
      if hi in m then [hi] + rest else rest
  }

  /** The ids of the rows with id at most `hi`, smallest first (a scan in rowid order). */
  function IdsUp<T>(m: map<int, T>, hi: int): (ks: seq<int>)
    ensures forall k :: k in ks <==> k in m && 1 <= k <= hi
    ensures forall k :: k in ks ==> k <= hi
    ensures Ascending(ks)
    decreases hi
  {
    if hi < 1 then []
    else
      var rest := IdsUp(m, hi - 1);
      assert forall j :: 0 <= j < |rest| ==> rest[j] in rest;
      if hi in m then rest + [hi] else rest
  }

  /** The ids of `ks` whose row satisfies `keep` (a `WHERE` clause), in the order of `ks`. */
  function Select<T>(m: map<int, T>, ks: seq<int>, keep: T -> bool): (r: seq<int>)
    ensures forall k :: k in r <==> k in ks && k in m && keep(m[k])
  {
    if ks == [] then []
    else
      var rest := Select(m, ks[1..], keep);
      if ks[0] in m && keep(m[ks[0]]) then [ks[0]] + rest else rest
  }

  /** A `WHERE` clause keeps a descending order of ids. */
  lemma {:induction false} SelectKeepsDescending<T>(m: map<int, T>, ks: seq<int>, keep: T -> bool)
    requires Descending(ks)
    ensures Descending(Select(m, ks, keep))
  {
    if ks != [] {
      var tail := ks[1..];
      assert forall j :: 0 <= j < |tail| ==> tail[j] == ks[j + 1] && tail[j] < ks[0];
      SelectKeepsDescending(m, tail, keep);
      var rest := Select(m, tail, keep);
      var r := Select(m, ks, keep);
      if ks[0] in m && keep(m[ks[0]]) {
        assert r == [ks[0]] + rest;
        forall i, j | 0 <= i < j < |r|
          ensures r[i] > r[j]
        {
          assert r[j] == rest[j - 1] && rest[j - 1] in tail;
          if i > 0 {
            assert r[i] == rest[i - 1];
          }
        }
      }
    }
  }

  /** A `WHERE` clause keeps an ascending order of ids. */
  lemma {:induction false} SelectKeepsAscending<T>(m: map<int, T>, ks: seq<int>, keep: T -> bool)
    requires Ascending(ks)
    ensures Ascending(Select(m, ks, keep))
  {
    if ks != [] {
      var tail := ks[1..];
      assert forall j :: 0 <= j < |tail| ==> tail[j] == ks[j + 1] && tail[j] > ks[0];
      SelectKeepsAscending(m, tail, keep);
      var rest := Select(m, tail, keep);
      var r := Select(m, ks, keep);
      if ks[0] in m && keep(m[ks[0]]) {
        assert r == [ks[0]] + rest;
        forall i, j | 0 <= i < j < |r|
          ensures r[i] < r[j]
        {
          assert r[j] == rest[j - 1] && rest[j - 1] in tail;
          if i > 0 {
            assert r[i] == rest[i - 1];
          }
        }
      }
    }
  }

  /** The position of `k` in `ks`. */
  function IndexOf(ks: seq<int>, k: int): (i: nat)
    requires k in ks
    ensures i < |ks| && ks[i] == k
  {
    if ks[0] == k then 0 else 1 + IndexOf(ks[1..], k)
  }

  /** `UPDATE ... WHERE id = ?`: replaces the row with that id, and changes
      nothing when there is none. */
  function UpdateWhere<T>(m: map<int, T>, id: int, row: T): (r: map<int, T>)
    ensures r.Keys == m.Keys
    ensures id in m ==> r[id] == row
    ensures forall k :: k in m && k != id ==> r[k] == m[k]
  {
    if id in m then m[id := row] else m
  }
}
