/** Row positions within a key column as pandas' `groupby` sees them: the next
    and the previous row with the same key in row order, the rows that have a
    next one, and the last row of each key. */
module Grouping {
  import opened Wrappers

  /** The set of distinct keys of a column. */
  function KeySet(keys: seq<string>): (ks: set<string>)
    ensures forall k :: k in ks <==> k in keys
  {
    set k | k in keys
  }

  /** `j` is the first row after `i` with the same key. */
  predicate IsNextSame(keys: seq<string>, i: nat, j: nat) {
    i < j < |keys| && keys[j] == keys[i] && forall m :: i < m < j ==> keys[m] != keys[i]
  }

  /** `j` is the last row before `i` with the same key. */
  predicate IsPrevSame(keys: seq<string>, i: nat, j: nat) {
    j < i < |keys| && keys[j] == keys[i] && forall m :: j < m < i ==> keys[m] != keys[i]
  }

  function NextSameFrom(keys: seq<string>, i: nat, j: nat): (r: Option<nat>)
    requires i < j <= |keys|
    requires forall m :: i < m < j ==> keys[m] != keys[i]
    ensures r.Some? ==> IsNextSame(keys, i, r.value)
    ensures r.None? <==> forall m :: i < m < |keys| ==> keys[m] != keys[i]
    decreases |keys| - j
  {
    if j == |keys| then None
    else if keys[j] == keys[i] then Some(j)
    else NextSameFrom(keys, i, j + 1)
  }

  /** The row `shift(-1)` within the group reads: the next row of the same key. */
  function NextSame(keys: seq<string>, i: nat): (r: Option<nat>)
    requires i < |keys|
    ensures r.Some? ==> IsNextSame(keys, i, r.value)
    ensures r.None? <==> forall m :: i < m < |keys| ==> keys[m] != keys[i]
  {
    NextSameFrom(keys, i, i + 1)
  }

  function PrevSameBelow(keys: seq<string>, i: nat, j: nat): (r: Option<nat>)
    requires j <= i < |keys|
    requires forall m :: j <= m < i ==> keys[m] != keys[i]
    ensures r.Some? ==> IsPrevSame(keys, i, r.value)
    ensures r.None? <==> forall m :: 0 <= m < i ==> keys[m] != keys[i]
    decreases j
  {
    if j == 0 then None
    else if keys[j - 1] == keys[i] then Some(j - 1)
    else PrevSameBelow(keys, i, j - 1)
  }

  /** The row a within-group `shift(1)` reads: the previous row of the same key. */
  function PrevSame(keys: seq<string>, i: nat): (r: Option<nat>)
    requires i < |keys|
    ensures r.Some? ==> IsPrevSame(keys, i, r.value)
    ensures r.None? <==> forall m :: 0 <= m < i ==> keys[m] != keys[i]
  {
    PrevSameBelow(keys, i, i)
  }

  /** A row has at most one previous row of the same key. */
  lemma PrevSameUnique(keys: seq<string>, i: nat, j: nat, j': nat)
    requires IsPrevSame(keys, i, j) && IsPrevSame(keys, i, j')
    ensures j == j'
  {
  }

  /** Row `i` has a later row with the same key. */
  predicate HasLater(keys: seq<string>, i: nat)
    requires i < |keys|
  {
    keys[i] in keys[i + 1..]
  }

  lemma HasLaterIffNext(keys: seq<string>, i: nat)
    requires i < |keys|
    ensures HasLater(keys, i) <==> NextSame(keys, i).Some?
  {
    if NextSame(keys, i).Some? {
      var j := NextSame(keys, i).value;
      assert keys[i + 1..][j - i - 1] == keys[j];
    } else {
      var tail := keys[i + 1..];
      forall m | 0 <= m < |tail| ensures tail[m] != keys[i] {
        assert tail[m] == keys[i + 1 + m];
      }
    }
  }

  /** The rows from `i` on that have a later row of the same key, in row order. */
  function KeptFrom(keys: seq<string>, i: nat): (ks: seq<nat>)
    requires i <= |keys|
    ensures forall p :: 0 <= p < |ks| ==> i <= ks[p] < |keys|
    decreases |keys| - i
  {
    if i == |keys| then []
    else (if HasLater(keys, i) then [i] else []) + KeptFrom(keys, i + 1)
  }

  /** Every kept row has a later row of its key. */
  lemma {:induction false} KeptFromSound(keys: seq<string>, i: nat)
    requires i <= |keys|
    ensures forall p :: 0 <= p < |KeptFrom(keys, i)| ==> HasLater(keys, KeptFrom(keys, i)[p])
    decreases |keys| - i
  {
    if i < |keys| {
      KeptFromSound(keys, i + 1);
    }
  }

  /** No row with a later row of its key is dropped. */
  lemma {:induction false} KeptFromComplete(keys: seq<string>, i: nat)
    requires i <= |keys|
    ensures forall k :: i <= k < |keys| && HasLater(keys, k) ==> k in KeptFrom(keys, i)
    decreases |keys| - i
  {
    if i < |keys| {
      KeptFromComplete(keys, i + 1);
    }
  }

  /** The kept rows stay in row order. */
  lemma {:induction false} KeptFromIncreasing(keys: seq<string>, i: nat)
    requires i <= |keys|
    ensures forall p, q :: 0 <= p < q < |KeptFrom(keys, i)| ==> KeptFrom(keys, i)[p] < KeptFrom(keys, i)[q]
    decreases |keys| - i
  {
    if i < |keys| {
      KeptFromIncreasing(keys, i + 1);
    }
  }

  /** The rows that have a next row of the same key: every row except the
      last of its key. */
  function Kept(keys: seq<string>): (ks: seq<nat>)
    ensures forall p :: 0 <= p < |ks| ==> ks[p] < |keys| && HasLater(keys, ks[p])
    ensures forall k :: 0 <= k < |keys| && HasLater(keys, k) ==> k in ks
    ensures forall p, q :: 0 <= p < q < |ks| ==> ks[p] < ks[q]
  {
    KeptFromSound(keys, 0);
    KeptFromComplete(keys, 0);
    KeptFromIncreasing(keys, 0);
    KeptFrom(keys, 0)
  }

  /** The keys of the rows at the given positions. */
  function Select(keys: seq<string>, ks: seq<nat>): (s: seq<string>)
    requires forall p :: 0 <= p < |ks| ==> ks[p] < |keys|
    ensures |s| == |ks|
    ensures forall p :: 0 <= p < |ks| ==> s[p] == keys[ks[p]]
  {
    seq(|ks|, p requires 0 <= p < |ks| => keys[ks[p]])
  }

  lemma SelectAppend(keys: seq<string>, a: seq<nat>, b: seq<nat>)
    requires forall p :: 0 <= p < |a| ==> a[p] < |keys|
    requires forall p :: 0 <= p < |b| ==> b[p] < |keys|
    ensures Select(keys, a + b) == Select(keys, a) + Select(keys, b)
  {
    assert forall p :: 0 <= p < |a + b| ==> Select(keys, a + b)[p] == (Select(keys, a) + Select(keys, b))[p];
  }

  /** Dropping the rows without a next row removes one row per distinct key. */
  lemma {:induction false} KeptCount(keys: seq<string>, i: nat)
    requires i <= |keys|
    ensures |KeptFrom(keys, i)| + |KeySet(keys[i..])| == |keys| - i
    decreases |keys| - i
  {
    if i == |keys| {
      assert keys[i..] == [];
      assert KeySet(keys[i..]) == {};
    } else {
      KeptCount(keys, i + 1);
      KeySetStep(keys, i);
      if HasLater(keys, i) {
        assert KeptFrom(keys, i) == [i] + KeptFrom(keys, i + 1);
      } else {
        assert KeptFrom(keys, i) == KeptFrom(keys, i + 1);
      }
    }
  }

  /** Adding a row adds a new key exactly when the key does not occur later. */
  lemma KeySetStep(keys: seq<string>, i: nat)
    requires i < |keys|
    ensures HasLater(keys, i) ==> KeySet(keys[i..]) == KeySet(keys[i + 1..])
    ensures !HasLater(keys, i) ==> |KeySet(keys[i..])| == |KeySet(keys[i + 1..])| + 1
  {
    assert keys[i..] == [keys[i]] + keys[i + 1..];
    assert KeySet(keys[i..]) == {keys[i]} + KeySet(keys[i + 1..]);
  }

  /** The number of rows with key `b`. */
  function Count(keys: seq<string>, b: string): (n: nat)
    ensures n <= |keys|
  {
    if |keys| == 0 then 0
    else (if keys[0] == b then 1 else 0) + Count(keys[1..], b)
  }

  /** A key's row count is positive exactly when the key occurs. */
  lemma {:induction false} CountPositive(keys: seq<string>, b: string)
    ensures Count(keys, b) > 0 <==> b in keys
  {
    if |keys| > 0 {
      CountPositive(keys[1..], b);
      assert keys == [keys[0]] + keys[1..];
    }
  }

  lemma CountCons(x: string, tail: seq<string>, b: string)
    ensures Count([x] + tail, b) == (if x == b then 1 else 0) + Count(tail, b)
  {
    assert ([x] + tail)[1..] == tail;
  }

  /** A key with `n` rows keeps `n - 1` of them: all but its last. */
  lemma {:induction false} KeptKeyCount(keys: seq<string>, i: nat, b: string)
    requires i <= |keys|
    ensures Count(Select(keys, KeptFrom(keys, i)), b)
         == if Count(keys[i..], b) > 0 then Count(keys[i..], b) - 1 else 0
    decreases |keys| - i
  {
    if i == |keys| {
      assert keys[i..] == [];
    } else {
      KeptKeyCount(keys, i + 1, b);
      KeptStepCount(keys, i, b);
    }
  }

  /** A kept row adds its key in front of the keys kept after it. */
  lemma KeptStepSelect(keys: seq<string>, i: nat)
    requires i < |keys| && HasLater(keys, i)
    ensures Select(keys, KeptFrom(keys, i)) == [keys[i]] + Select(keys, KeptFrom(keys, i + 1))
  {
    var rest := KeptFrom(keys, i + 1);
    assert KeptFrom(keys, i) == [i] + rest;
    SelectAppend(keys, [i], rest);
    SelectSingle(keys, i);
  }

  lemma SelectSingle(keys: seq<string>, i: nat)
    requires i < |keys|
    ensures Select(keys, [i]) == [keys[i]]
  {
  }

  /** One step of the count: the row at `i` is kept exactly when its key
      occurs again later. */
  lemma KeptStepCount(keys: seq<string>, i: nat, b: string)
    requires i < |keys|
    requires Count(Select(keys, KeptFrom(keys, i + 1)), b)
          == if Count(keys[i + 1..], b) > 0 then Count(keys[i + 1..], b) - 1 else 0
    ensures Count(Select(keys, KeptFrom(keys, i)), b)
         == if Count(keys[i..], b) > 0 then Count(keys[i..], b) - 1 else 0
  {
    assert keys[i..] == [keys[i]] + keys[i + 1..];
    CountCons(keys[i], keys[i + 1..], b);
    CountPositive(keys[i + 1..], b);
    if HasLater(keys, i) {
      KeptStepSelect(keys, i);
      CountCons(keys[i], Select(keys, KeptFrom(keys, i + 1)), b);
    } else {
      assert KeptFrom(keys, i) == KeptFrom(keys, i + 1);
    }
  }

  /** The last row of a key, which `groupby(...).last()` reports for it. */
  function LastIndex(keys: seq<string>, b: string): (r: Option<nat>)
    ensures r.Some? ==> r.value < |keys| && keys[r.value] == b
    ensures r.Some? ==> forall m :: r.value < m < |keys| ==> keys[m] != b
    ensures r.None? <==> b !in keys
  {
    if |keys| == 0 then None
    else if keys[|keys| - 1] == b then Some(|keys| - 1)
    else
      assert keys == keys[..|keys| - 1] + [keys[|keys| - 1]];
      LastIndex(keys[..|keys| - 1], b)
  }

  /** The last row of a key is exactly the row of that key without a next one. */
  lemma LastIndexHasNoNext(keys: seq<string>, b: string)
    requires b in keys
    ensures LastIndex(keys, b).Some?
    ensures NextSame(keys, LastIndex(keys, b).value).None?
  {
  }
}
