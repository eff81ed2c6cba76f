/**
 * Shared helpers of the grid: an optional value (JavaScript's `undefined`)
 * and the row-key-getter guard that every selection handler runs first.
 */
module Utils {

  /** A value that may be absent. */
  datatype Option<+T> = None | Some(value: T) {
    /** The value, or `default` when it is absent (JavaScript's `??`). */
    function GetOr(default: T): T {
      match this
      case Some(v) => v
      case None => default
    }
  }

  /** JavaScript's `Math.max` and `Math.min` on two integers. */
  function Max(a: int, b: int): int { if a < b then b else a }
  function Min(a: int, b: int): int { if a < b then a else b }

  /** Index of the first occurrence of `x` in `xs` (`xs.indexOf(x)`), or -1. */
  function IndexOf<T(==)>(xs: seq<T>, x: T): (i: int)
    ensures -1 <= i < |xs|
    ensures i == -1 <==> x !in xs
    ensures i >= 0 ==> xs[i] == x && x !in xs[..i]
  {
    if xs == [] then -1
    else if xs[0] == x then 0
    else var j := IndexOf(xs[1..], x); if j == -1 then -1 else j + 1
  }

  /** The message the selection handlers raise when no row key getter is given. */
  const KEY_GETTER_ERROR: string := "Please specify the rowKeyGetter prop to use selection"

  /**
   * What a selection handler does: nothing (no change callback is subscribed),
   * raise the usage error, or hand a new set of selected row keys to the callback.
   */
  datatype SelectionChange<K> =
    | NoCallback
    | UsageError(message: string)
    | Selected(keys: set<K>)

  /**
   * The guard of the selection handlers: a missing key getter is a usage error,
   * reported before any set is built.
   */
  function AssertIsValidKeyGetter<R, K>(keyGetter: Option<R -> K>): (error: Option<string>)
    ensures error.None? <==> keyGetter.Some?
    ensures error.Some? ==> error.value == KEY_GETTER_ERROR
  {
    if keyGetter.Some? then None else Some(KEY_GETTER_ERROR)
  }

  /** The keys of `rows`. */
  function KeysOf<R, K(==)>(rows: seq<R>, getKey: R -> K): set<K>
  {
    set i | 0 <= i < |rows| :: getKey(rows[i])
  }

  lemma KeysOfAppend<R, K>(rows: seq<R>, i: int, getKey: R -> K)
    requires 0 <= i < |rows|
    ensures KeysOf(rows[..i + 1], getKey) == KeysOf(rows[..i], getKey) + {getKey(rows[i])}
  {
    var a, b := rows[..i + 1], rows[..i];
    forall k | k in KeysOf(a, getKey) ensures k in KeysOf(b, getKey) + {getKey(rows[i])} {
      var j :| 0 <= j < |a| && getKey(a[j]) == k;
      if j < i {
        assert a[j] == b[j];
      }
    }
    forall k | k in KeysOf(b, getKey) ensures k in KeysOf(a, getKey) {
      var j :| 0 <= j < |b| && getKey(b[j]) == k;
      assert a[j] == b[j];
    }
    assert a[i] == rows[i];
  }

  /** Rows whose keys are pairwise distinct have as many keys as rows. */
  lemma {:induction false} KeysOfDistinct<R, K>(rows: seq<R>, getKey: R -> K)
    requires forall i, j :: 0 <= i < j < |rows| ==> getKey(rows[i]) != getKey(rows[j])
    ensures |KeysOf(rows, getKey)| == |rows|
  {
    if rows != [] {
      var n := |rows| - 1;
      var before := rows[..n];
      KeysOfDistinct(before, getKey);
      KeysOfAppend(rows, n, getKey);
      assert getKey(rows[n]) !in KeysOf(before, getKey);
      assert rows[..n + 1] == rows;
    }
  }
}
