/** The pandas operations the dashboard builds on: cells that may be NaN,
    `value_counts()`, and `groupby(...).size()` with its sorted keys. */
module Frames {
  import opened Collections
  import opened Text

  /** One spreadsheet cell: `None` is pandas' missing value (NaN/NaT). */
  type Cell = Option<string>

  /** The count of a (value, count) entry. */
  function Frequency<T>(entry: (T, nat)): int
  {
    entry.1
  }

  function Labels<T>(entries: seq<(T, nat)>): seq<T>
  {
    seq(|entries|, k requires 0 <= k < |entries| => entries[k].0)
  }

  /** Each key paired with the number of times it occurs in `xs`. */
  function CountsOver<T(==)>(xs: seq<T>, keys: seq<T>): seq<(T, nat)>
  {
    seq(|keys|, k requires 0 <= k < |keys| => (keys[k], multiset(xs)[keys[k]]))
  }

  ghost function CountSum<T>(xs: seq<T>, keys: seq<T>): nat
  {
    if keys == [] then 0 else multiset(xs)[keys[0]] + CountSum(xs, keys[1..])
  }

  lemma {:induction false} CountsOverSum<T>(xs: seq<T>, keys: seq<T>)
    ensures KeySum(CountsOver(xs, keys), Frequency) == CountSum(xs, keys)
  {
    if keys != [] {
      assert CountsOver(xs, keys)[1..] == CountsOver(xs, keys[1..]);
      CountsOverSum(xs, keys[1..]);
    }
  }

  lemma {:induction false} CountSumSingle<T>(x: T, keys: seq<T>)
    requires NoDuplicates(keys)
    ensures CountSum([x], keys) == if x in keys then 1 else 0
  {
    if keys != [] {
      assert NoDuplicates(keys[1..]) by {
        forall i, j | 0 <= i < j < |keys[1..]| ensures keys[1..][i] != keys[1..][j] {
          assert keys[1..][i] == keys[i + 1] && keys[1..][j] == keys[j + 1];
        }
      }
      CountSumSingle(x, keys[1..]);
      if x == keys[0] {
        forall k | 0 <= k < |keys[1..]| ensures keys[1..][k] != x {
          assert keys[1..][k] == keys[k + 1];
        }
      }
      assert keys == [keys[0]] + keys[1..];
    }
  }

  lemma {:induction false} CountSumAppend<T>(a: seq<T>, b: seq<T>, keys: seq<T>)
    ensures CountSum(a + b, keys) == CountSum(a, keys) + CountSum(b, keys)
  {
    if keys != [] {
      CountSumAppend(a, b, keys[1..]);
    }
  }

  /** Counting every element of `xs` once per distinct key adds up to `|xs|`. */
  lemma {:induction false} CountSumTotal<T>(xs: seq<T>, keys: seq<T>)
    requires NoDuplicates(keys)
    requires forall x :: x in xs ==> x in keys
    ensures CountSum(xs, keys) == |xs|
  {
    if xs == [] {
      CountSumEmpty(keys);
    } else {
      assert xs == [xs[0]] + xs[1..];
      CountSumAppend([xs[0]], xs[1..], keys);
      CountSumSingle(xs[0], keys);
      CountSumTotal(xs[1..], keys);
    }
  }

  lemma {:induction false} CountSumEmpty<T>(keys: seq<T>)
    ensures CountSum([], keys) == 0
  {
    if keys != [] {
      CountSumEmpty(keys[1..]);
    }
  }

  /** Reordering entries keeps their labels distinct and the same. */
  lemma PermutedEntries<T>(pairs: seq<(T, nat)>, r: seq<(T, nat)>)
    requires multiset(r) == multiset(pairs)
    requires NoDuplicates(Labels(pairs))
    ensures forall e :: e in r <==> e in pairs
    ensures NoDuplicates(Labels(r))
    ensures forall x :: x in Labels(r) <==> x in Labels(pairs)
  {
    forall e ensures e in r <==> e in pairs {
      assert e in r <==> e in multiset(r);
      assert e in pairs <==> e in multiset(pairs);
    }
    assert NoDuplicates(pairs) by {
      forall i, j | 0 <= i < j < |pairs| ensures pairs[i] != pairs[j] {
        assert Labels(pairs)[i] != Labels(pairs)[j];
      }
    }
    NoDuplicatesMultiset(pairs);
    NoDuplicatesMultiset(r);
    forall i, j | 0 <= i < j < |r| ensures Labels(r)[i] != Labels(r)[j] {
      assert r[i] in pairs && r[j] in pairs;
      var a :| 0 <= a < |pairs| && pairs[a] == r[i];
      var b :| 0 <= b < |pairs| && pairs[b] == r[j];
      if a != b {
        assert Labels(pairs)[a] != Labels(pairs)[b];
      }
    }
    forall x ensures x in Labels(r) <==> x in Labels(pairs) {
      if x in Labels(pairs) {
        var a :| 0 <= a < |pairs| && Labels(pairs)[a] == x;
        assert pairs[a] in r;
        var m :| 0 <= m < |r| && r[m] == pairs[a];
        assert Labels(r)[m] == x;
      }
      if x in Labels(r) {
        var m :| 0 <= m < |r| && Labels(r)[m] == x;
        assert r[m] in pairs;
        var a :| 0 <= a < |pairs| && pairs[a] == r[m];
        assert Labels(pairs)[a] == x;
      }
    }
  }

  /** The distinct values of `xs`, each paired with its count. */
  lemma CountsOverDistinct<T>(xs: seq<T>, keys: seq<T>)
    requires NoDuplicates(keys)
    requires forall x :: x in keys <==> x in xs
    ensures Labels(CountsOver(xs, keys)) == keys
    ensures forall e :: e in CountsOver(xs, keys) ==> e.1 == multiset(xs)[e.0] && e.1 > 0
    ensures KeySum(CountsOver(xs, keys), Frequency) == |xs|
  {
    var pairs := CountsOver(xs, keys);
    assert Labels(pairs) == keys;
    forall e | e in pairs ensures e.1 == multiset(xs)[e.0] && e.1 > 0 {
      var k :| 0 <= k < |pairs| && pairs[k] == e;
      assert keys[k] in xs;
    }
    CountsOverSum(xs, keys);
    CountSumTotal(xs, keys);
  }

  /** pandas' `value_counts()`: each distinct value once, with the number of
      times it occurs, largest count first. The counts add up to `|xs|`. */
  function ValueCounts<T(==,!new)>(xs: seq<T>): (r: seq<(T, nat)>)
    ensures NoDuplicates(Labels(r))
    ensures forall x :: x in Labels(r) <==> x in xs
    ensures forall e :: e in r ==> e.1 == multiset(xs)[e.0] && e.1 > 0
    ensures SortedDescending(r, Frequency)
    ensures KeySum(r, Frequency) == |xs|
  {
    var keys := Distinct(xs);
    var pairs := CountsOver(xs, keys);
    CountsOverDistinct(xs, keys);
    var r := SortByKeyDesc(pairs, Frequency);
    PermutedEntries(pairs, r);
    r
  }

  predicate StrictlyIncreasing(keys: seq<string>)
  {
    forall i, j :: 0 <= i < j < |keys| ==> Less(keys[i], keys[j])
  }

  lemma StrictlyIncreasingDistinct(keys: seq<string>)
    requires StrictlyIncreasing(keys)
    ensures NoDuplicates(keys)
  {
    forall i, j | 0 <= i < j < |keys| ensures keys[i] != keys[j] {
      LessIrreflexive(keys[i]);
    }
  }

  function InsertKey(key: string, keys: seq<string>): (r: seq<string>)
    requires StrictlyIncreasing(keys)
    ensures StrictlyIncreasing(r)
    ensures forall x :: x in r <==> x == key || x in keys
  {
    if keys == [] then [key]
    else if key == keys[0] then keys
    else if Less(key, keys[0]) then
      assert StrictlyIncreasing([key] + keys) by {
        forall j | 0 <= j < |keys| ensures Less(key, keys[j]) {
          if j > 0 { LessTransitive(key, keys[0], keys[j]); }
        }
      }
      [key] + keys
    else
      LessTotal(key, keys[0]);
      var rest := InsertKey(key, keys[1..]);
      assert StrictlyIncreasing([keys[0]] + rest) by {
        forall j | 0 <= j < |rest| ensures Less(keys[0], rest[j]) {
          assert rest[j] in rest;
        }
      }
      [keys[0]] + rest
  }

  /** The keys `groupby` iterates over: the distinct values of `xs` in
      ascending order. */
  function GroupKeys(xs: seq<string>): (r: seq<string>)
    ensures StrictlyIncreasing(r)
    ensures forall x :: x in r <==> x in xs
  {
    if xs == [] then [] else InsertKey(xs[0], GroupKeys(xs[1..]))
  }

  /** pandas' `groupby(...).size()`: one entry per distinct value, in key
      order, holding the size of its group. The sizes add up to `|xs|`. */
  function GroupSizes(xs: seq<string>): (r: seq<(string, nat)>)
    ensures Labels(r) == GroupKeys(xs)
    ensures StrictlyIncreasing(Labels(r))
    ensures forall x :: x in Labels(r) <==> x in xs
    ensures forall k :: 0 <= k < |r| ==> r[k].1 == multiset(xs)[r[k].0] && r[k].1 > 0
    ensures KeySum(r, Frequency) == |xs|
  {
    var keys := GroupKeys(xs);
    var r := CountsOver(xs, keys);
    StrictlyIncreasingDistinct(keys);
    CountsOverDistinct(xs, keys);
    assert forall k :: 0 <= k < |r| ==> r[k] in r;
    r
  }
}
