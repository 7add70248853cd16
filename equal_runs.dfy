/**
 * Merging equal subsequent values of a daily series: walking the map's values in iteration
 * order, each value equal (by `Double::equals`) to the value just before it is removed through
 * the iterator, which removes its entry. Each run of equal consecutive values keeps only the
 * entry that starts it.
 */
module EqualRuns {
  import opened OrderedMaps

  /** Entry `i` starts a run: it is the first entry, or its value differs from the one before. */
  predicate StartsRun<K, V(==)>(es: seq<(K, V)>, i: nat)
    requires i < |es|
  {
    i == 0 || es[i].1 != es[i - 1].1
  }

  /** The entries that start a run, in their order. */
  function CollapseRuns<K, V(==)>(es: seq<(K, V)>): seq<(K, V)> {
    if es == [] then []
    else
      var n := |es| - 1;
      CollapseRuns(es[..n]) + if StartsRun(es, n) then [es[n]] else []
  }

  /** The values of a list of entries, in order. */
  function ValuesOf<K, V>(es: seq<(K, V)>): seq<V> {
    seq(|es|, i requires 0 <= i < |es| => es[i].1)
  }

  /** Whether an entry starts a run does not depend on the entries after it. */
  lemma StartsRunInPrefix<K, V>(es: seq<(K, V)>, n: nat, i: nat)
    requires i < n <= |es|
    ensures StartsRun(es[..n], i) == StartsRun(es, i)
  {
    if i > 0 {
      assert es[..n][i] == es[i] && es[..n][i - 1] == es[i - 1];
    }
  }

  /** The last kept entry carries the value the series ends with. */
  lemma {:induction false} CollapseRunsLast<K, V>(es: seq<(K, V)>)
    requires es != []
    ensures CollapseRuns(es) != [] && CollapseRuns(es)[|CollapseRuns(es)| - 1].1 == es[|es| - 1].1
  {
    var n := |es| - 1;
    if n > 0 && !StartsRun(es, n) {
      CollapseRunsLast(es[..n]);
    }
  }

  /** No two neighbouring entries of the merged series have equal values. */
  lemma {:induction false} CollapseRunsNoEqualNeighbours<K, V>(es: seq<(K, V)>)
    ensures forall j :: 0 < j < |CollapseRuns(es)| ==> CollapseRuns(es)[j - 1].1 != CollapseRuns(es)[j].1
  {
    if es != [] {
      var n := |es| - 1;
      var init := CollapseRuns(es[..n]);
      CollapseRunsNoEqualNeighbours(es[..n]);
      if StartsRun(es, n) && n > 0 {
        CollapseRunsLast(es[..n]);
        assert es[..n][n - 1] == es[n - 1];
      }
    }
  }

  /** The merged series holds exactly the entries that start a run. */
  lemma {:induction false} CollapseRunsMembers<K, V>(es: seq<(K, V)>)
    ensures forall i :: 0 <= i < |es| && StartsRun(es, i) ==> es[i] in CollapseRuns(es)
    ensures forall x :: x in CollapseRuns(es) ==> exists i :: 0 <= i < |es| && StartsRun(es, i) && es[i] == x
  {
    if es != [] {
      var n := |es| - 1;
      var prefix := es[..n];
      CollapseRunsMembers(prefix);
      forall i | 0 <= i < n && StartsRun(es, i) ensures es[i] in CollapseRuns(es) {
        StartsRunInPrefix(es, n, i);
        assert prefix[i] == es[i];
      }
      forall x | x in CollapseRuns(es) ensures exists i :: 0 <= i < |es| && StartsRun(es, i) && es[i] == x {
        if x in CollapseRuns(prefix) {
          var i :| 0 <= i < n && StartsRun(prefix, i) && prefix[i] == x;
          StartsRunInPrefix(es, n, i);
        }
      }
    }
  }

  /** Every value of the series is still present after merging: the run it lies in keeps its first entry. */
  lemma CollapseRunsValues<K, V>(es: seq<(K, V)>)
    ensures forall v :: v in ValuesOf(es) <==> v in ValuesOf(CollapseRuns(es))
  {
    var r := CollapseRuns(es);
    CollapseRunsMembers(es);
    forall v | v in ValuesOf(es) ensures v in ValuesOf(r) {
      var i :| 0 <= i < |es| && es[i].1 == v;
      var j := RunStart(es, i);
      var k :| 0 <= k < |r| && r[k] == es[j];
      assert ValuesOf(r)[k] == v;
    }
    forall v | v in ValuesOf(r) ensures v in ValuesOf(es) {
      var k :| 0 <= k < |r| && r[k].1 == v;
      assert r[k] in r;
      var i :| 0 <= i < |es| && StartsRun(es, i) && es[i] == r[k];
      assert ValuesOf(es)[i] == v;
    }
  }

  /** The entry that starts the run entry `i` lies in. */
  lemma {:induction false} RunStart<K, V>(es: seq<(K, V)>, i: nat) returns (j: nat)
    requires i < |es|
    ensures j <= i && StartsRun(es, j) && es[j].1 == es[i].1
    decreases i
  {
    if StartsRun(es, i) {
      j := i;
    } else {
      j := RunStart(es, i - 1);
    }
  }

  /** The merge keeps the entries it keeps in their order. */
  lemma {:induction false} CollapseRunsSubsequence<K, V>(es: seq<(K, V)>)
    ensures IsSubsequence(CollapseRuns(es), es)
  {
    if es != [] {
      var n := |es| - 1;
      CollapseRunsSubsequence(es[..n]);
      assert es[..n] + [es[n]] == es;
      if StartsRun(es, n) {
        SubsequenceAppendBoth(CollapseRuns(es[..n]), es[..n], es[n]);
      } else {
        assert CollapseRuns(es) == CollapseRuns(es[..n]);
        SubsequenceAppendRight(CollapseRuns(es[..n]), es[..n], es[n]);
      }
    }
  }

  /** A series without equal neighbours is left as it is. */
  lemma {:induction false} CollapseRunsOfMerged<K, V>(es: seq<(K, V)>)
    requires forall j :: 0 < j < |es| ==> es[j - 1].1 != es[j].1
    ensures CollapseRuns(es) == es
  {
    if es != [] {
      var n := |es| - 1;
      assert forall j :: 0 <= j < n ==> es[..n][j] == es[j];
      CollapseRunsOfMerged(es[..n]);
      assert es[..n] + [es[n]] == es;
    }
  }

  /** Merging twice is merging once. */
  lemma CollapseRunsIdempotent<K, V>(es: seq<(K, V)>)
    ensures CollapseRuns(CollapseRuns(es)) == CollapseRuns(es)
  {
    CollapseRunsNoEqualNeighbours(es);
    CollapseRunsOfMerged(CollapseRuns(es));
  }

  /** Values 1, 1, 2, 2, 2, 1 on six consecutive keys merge to 1, 2, 1 on the first, third and sixth. */
  lemma CollapseRunsExample()
    ensures CollapseRuns([(1, 1), (2, 1), (3, 2), (4, 2), (5, 2), (6, 1)]) == [(1, 1), (3, 2), (6, 1)]
  {
    var es: seq<(int, int)> := [(1, 1), (2, 1), (3, 2), (4, 2), (5, 2), (6, 1)];
    assert es[..1] == [(1, 1)] && |es[..1][..0]| == 0;
    assert es[..2][..1] == es[..1] && es[..3][..2] == es[..2] && es[..4][..3] == es[..3];
    assert es[..5][..4] == es[..4] && es[..6][..5] == es[..5] && es[..6] == es;
    assert CollapseRuns(es[..1]) == [(1, 1)];
    assert CollapseRuns(es[..2]) == [(1, 1)];
    assert CollapseRuns(es[..3]) == [(1, 1), (3, 2)];
    assert CollapseRuns(es[..4]) == [(1, 1), (3, 2)];
    assert CollapseRuns(es[..5]) == [(1, 1), (3, 2)];
  }

  /** One more entry of the series: it is kept exactly when it starts a run. */
  lemma CollapseRunsStep<K, V>(es: seq<(K, V)>, i: nat)
    requires i < |es|
    ensures CollapseRuns(es[..i + 1]) == CollapseRuns(es[..i]) + if StartsRun(es, i) then [es[i]] else []
  {
    assert es[..i + 1][..i] == es[..i];
    if i > 0 {
      assert es[..i + 1][i - 1] == es[i - 1];
    }
  }

  /** The first entry alone is kept, and the entries after it are the rest of the series. */
  lemma CollapseRunsFirst<K, V>(es: seq<(K, V)>)
    requires es != []
    ensures CollapseRuns(es[..1]) == es[..1] && es[..1] + es[1..] == es
  {
    CollapseRunsStep(es, 0);
    assert es[..0] == [];
  }

  /** Once every entry has been visited, the kept entries are the merged series and nothing is left. */
  lemma CollapseRunsWhole<K, V>(es: seq<(K, V)>, kept: seq<(K, V)>)
    requires kept == CollapseRuns(es[..|es|])
    ensures kept == CollapseRuns(es) && kept + es[|es|..] == kept
  {
    assert es[..|es|] == es;
    assert kept + es[|es|..] == kept + [];
  }

  /** Moving the first entry of the rest onto the end of the prefix. */
  lemma MoveFirst<T>(prefix: seq<T>, rest: seq<T>)
    requires rest != []
    ensures prefix + rest == (prefix + [rest[0]]) + rest[1..]
  {
    assert rest == [rest[0]] + rest[1..];
  }

  /** Removing the key of the first entry after a kept prefix cuts that entry out. */
  lemma RemoveAfterPrefix<K, V>(kept: seq<(K, V)>, rest: seq<(K, V)>)
    requires DistinctKeys(kept + rest) && rest != []
    ensures RemoveEntry(kept + rest, rest[0].0) == kept + rest[1..]
  {
    var es := kept + rest;
    assert es[|kept|] == rest[0];
    RemoveEntryAt(es, |kept|);
    assert es[..|kept|] == kept && es[|kept| + 1..] == rest[1..];
  }

  /** The iterator's `remove()` on the entry just after the kept prefix. */
  method RemoveNext<K, V>(m: LinkedMap<K, V>, k: K, ghost kept: seq<(K, V)>, ghost rest: seq<(K, V)>)
    requires m.Valid() && m.Entries() == kept + rest && rest != [] && k == rest[0].0
    modifies m
    ensures m.Valid() && m.Entries() == kept + rest[1..]
  {
    RemoveAfterPrefix(kept, rest);
    m.Remove(k);
  }

  /**
   * One turn of the iteration: the entry after the kept prefix, with key `k` and value `current`,
   * is removed when its value equals `previous`; the value the next entry is compared with.
   */
  method MergeNext<K, V(==)>(m: LinkedMap<K, V>, k: K, current: V, previous: V,
                             ghost es: seq<(K, V)>, ghost kept: seq<(K, V)>, ghost i: nat)
    returns (next: V, ghost kept': seq<(K, V)>)
    requires 0 < i < |es| && es[i] == (k, current) && previous == es[i - 1].1
    requires m.Valid() && kept == CollapseRuns(es[..i]) && m.Entries() == kept + es[i..]
    modifies m
    ensures m.Valid() && kept' == CollapseRuns(es[..i + 1]) && m.Entries() == kept' + es[i + 1..] && next == es[i].1
  {
    CollapseRunsStep(es, i);
    assert es[i..][1..] == es[i + 1..];
    if current == previous {
      RemoveNext(m, k, kept, es[i..]);
      kept' := kept;
    } else {
      MoveFirst(kept, es[i..]);
      kept' := kept + [es[i]];
    }
    next := current;
  }

  /**
   * `removeAdjacentDuplicates(map.values(), Double::equals)`: one pass over the values with
   * an iterator, removing each value equal to the value just before it in the original series.
   */
  method MergeEqualSubsequentValues<K, V(==)>(m: LinkedMap<K, V>)
    requires m.Valid()
    modifies m
    ensures m.Valid() && m.Entries() == CollapseRuns(old(m.Entries()))
  {
    var keys, vals := m.keys, m.vals;
    ghost var es := EntriesOf(keys, vals);
    if |keys| == 0 {
      return;
    }
    CollapseRunsFirst(es);
    ghost var kept := CollapseRuns(es[..1]);
    var previous := vals[keys[0]];
    var i := 1;
    while i < |keys|
      invariant 1 <= i <= |keys| == |es|
      invariant kept == CollapseRuns(es[..i])
      invariant m.Valid() && m.Entries() == kept + es[i..]
      invariant previous == es[i - 1].1
    {
      previous, kept := MergeNext(m, keys[i], vals[keys[i]], previous, es, kept, i);
      i := i + 1;
    }
    CollapseRunsWhole(es, kept);
  }
}
