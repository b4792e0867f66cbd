/** Grouping (key, value) entries into a dictionary of lists, the way
    `get_data_dict` fills its `defaultdict(list)`: the key of each entry is
    computed from its first component by a key function that may raise,
    and the value is appended to that key's list. Stated for any key
    function, so that the grouping laws do not depend on how timestamps are
    parsed. */
module Grouping {
  import opened Failures

  /** `my_dict[key].append(value)` on a `defaultdict(list)`. */
  function AddScore<V>(m: map<string, seq<V>>, key: string, value: V): (m': map<string, seq<V>>)
    ensures m'.Keys == m.Keys + {key}
    ensures m'[key] == (if key in m then m[key] else []) + [value]
    ensures forall k :: k in m && k != key ==> m'[k] == m[k]
  {
    m[key := (if key in m then m[key] else []) + [value]]
  }

  /** The dictionary after every entry has been appended in order, or the
      exception of the first entry whose key cannot be computed. */
  function GroupBy<V>(data: seq<(string, V)>, keyOf: string -> Result<string>): Result<map<string, seq<V>>>
    decreases |data|
  {
    if |data| == 0 then Ok(map[])
    else
      var n := |data| - 1;
      match GroupBy(data[..n], keyOf)
      case Err(e) => Err(e)
      case Ok(m) =>
        match keyOf(data[n].0)
        case Err(e) => Err(e)
        case Ok(key) => Ok(AddScore(m, key, data[n].1))
  }

  /** The reference definition of one group: the values, in input order,
      of the entries whose key is `key`. */
  function Group<V>(data: seq<(string, V)>, keyOf: string -> Result<string>, key: string): seq<V>
    decreases |data|
  {
    if |data| == 0 then []
    else
      var n := |data| - 1;
      Group(data[..n], keyOf, key) + (if keyOf(data[n].0) == Ok(key) then [data[n].1] else [])
  }

  /** Each entry's value is in the group of its own key. */
  lemma {:induction false} GroupHasEntry<V>(data: seq<(string, V)>, keyOf: string -> Result<string>, i: int)
    requires 0 <= i < |data| && keyOf(data[i].0).Ok?
    ensures data[i].1 in Group(data, keyOf, keyOf(data[i].0).value)
    decreases |data|
  {
    var n := |data| - 1;
    if i < n {
      assert data[..n][i] == data[i];
      GroupHasEntry(data[..n], keyOf, i);
    }
  }

  /** The number of values held in all lists together. */
  ghost function TotalSize<V>(m: map<string, seq<V>>): nat
    decreases |m|
  {
    if |m| == 0 then 0
    else
      var k :| k in m;
      assert (m - {k}).Keys == m.Keys - {k};
      |m[k]| + TotalSize(m - {k})
  }

  /** The key `TotalSize` visits first. */
  lemma TotalSizeUnfold<V>(m: map<string, seq<V>>) returns (j: string)
    requires |m| > 0
    ensures j in m && TotalSize(m) == |m[j]| + TotalSize(m - {j})
  {
    j :| j in m && TotalSize(m) == |m[j]| + TotalSize(m - {j});
  }

  lemma RemoveKeySmaller<V>(m: map<string, seq<V>>, j: string)
    requires j in m
    ensures |m - {j}| < |m|
  {
    assert (m - {j}).Keys == m.Keys - {j};
  }

  /** The total does not depend on the order the keys are visited in. */
  lemma {:induction false} TotalSizeRemove<V>(m: map<string, seq<V>>, k: string)
    requires k in m
    ensures TotalSize(m) == |m[k]| + TotalSize(m - {k})
    decreases |m|
  {
    var j := TotalSizeUnfold(m);
    if j != k {
      var mj, mk := m - {j}, m - {k};
      RemoveKeySmaller(m, j);
      RemoveKeySmaller(m, k);
      assert k in mj && mj[k] == m[k];
      assert j in mk && mk[j] == m[j];
      TotalSizeRemove(mj, k);
      TotalSizeRemove(mk, j);
      RemoveCommute(m, j, k);
    }
  }

  lemma RemoveCommute<V>(m: map<string, seq<V>>, j: string, k: string)
    ensures m - {j} - {k} == m - {k} - {j}
  {
  }

  lemma UpdateThenRemove<V>(m: map<string, seq<V>>, key: string, v: seq<V>)
    ensures m[key := v] - {key} == m - {key}
  {
  }

  lemma RemoveAbsent<V>(m: map<string, seq<V>>, key: string)
    requires key !in m
    ensures m - {key} == m
  {
  }

  /** Appending one value adds one to the total. */
  lemma AddScoreSize<V>(m: map<string, seq<V>>, key: string, value: V)
    ensures TotalSize(AddScore(m, key, value)) == TotalSize(m) + 1
  {
    var m' := AddScore(m, key, value);
    TotalSizeRemove(m', key);
    UpdateThenRemove(m, key, m'[key]);
    if key in m {
      TotalSizeRemove(m, key);
    } else {
      RemoveAbsent(m, key);
    }
  }

  /** Grouping fails exactly when some key cannot be computed, and then
      with the exception of the first such entry. */
  lemma {:induction false} GroupByFailure<V>(data: seq<(string, V)>, keyOf: string -> Result<string>)
    ensures GroupBy(data, keyOf).Ok? <==> forall i :: 0 <= i < |data| ==> keyOf(data[i].0).Ok?
    ensures GroupBy(data, keyOf).Err? ==>
              exists i :: 0 <= i < |data| && keyOf(data[i].0) == Err(GroupBy(data, keyOf).error)
                          && forall j :: 0 <= j < i ==> keyOf(data[j].0).Ok?
    decreases |data|
  {
    if |data| > 0 {
      var n := |data| - 1;
      GroupByFailure(data[..n], keyOf);
      assert forall i :: 0 <= i < n ==> data[..n][i] == data[i];
      if GroupBy(data[..n], keyOf).Err? {
        var i :| 0 <= i < n && keyOf(data[..n][i].0) == Err(GroupBy(data[..n], keyOf).error)
                 && forall j :: 0 <= j < i ==> keyOf(data[..n][j].0).Ok?;
        assert keyOf(data[i].0) == Err(GroupBy(data, keyOf).error);
      } else if keyOf(data[n].0).Err? {
        assert keyOf(data[n].0) == Err(GroupBy(data, keyOf).error);
      }
    }
  }

  /** Once a prefix has failed, the whole fails with the same exception:
      later entries are never looked at. */
  lemma {:induction false} GroupByErrStays<V>(data: seq<(string, V)>, keyOf: string -> Result<string>, n: nat)
    requires n <= |data| && GroupBy(data[..n], keyOf).Err?
    ensures GroupBy(data, keyOf) == GroupBy(data[..n], keyOf)
    decreases |data|
  {
    if n < |data| {
      var m := |data| - 1;
      assert data[..m][..n] == data[..n];
      GroupByErrStays(data[..m], keyOf, n);
    } else {
      assert data[..n] == data;
    }
  }

  /** Every list holds exactly the values of the entries with its key, in
      input order, and a key is present exactly when some entry has it. */
  lemma {:induction false} GroupByContents<V>(data: seq<(string, V)>, keyOf: string -> Result<string>)
    requires GroupBy(data, keyOf).Ok?
    ensures forall k :: k in GroupBy(data, keyOf).value <==> |Group(data, keyOf, k)| > 0
    ensures forall k :: k in GroupBy(data, keyOf).value ==> GroupBy(data, keyOf).value[k] == Group(data, keyOf, k)
    decreases |data|
  {
    if |data| > 0 {
      var n := |data| - 1;
      var prefix := data[..n];
      GroupByContents(prefix, keyOf);
      var m := GroupBy(prefix, keyOf).value;
      var key := keyOf(data[n].0).value;
      var m' := GroupBy(data, keyOf).value;
      assert m' == AddScore(m, key, data[n].1);
      forall k
        ensures k in m' <==> |Group(data, keyOf, k)| > 0
        ensures k in m' ==> m'[k] == Group(data, keyOf, k)
      {
        assert Group(data, keyOf, k) == Group(prefix, keyOf, k) + (if key == k then [data[n].1] else []);
      }
    }
  }

  /** Every entry's key is one of the dictionary's keys. */
  lemma {:induction false} GroupByEntries<V>(data: seq<(string, V)>, keyOf: string -> Result<string>)
    requires GroupBy(data, keyOf).Ok?
    ensures forall i :: 0 <= i < |data| ==>
              keyOf(data[i].0).Ok? && keyOf(data[i].0).value in GroupBy(data, keyOf).value
    decreases |data|
  {
    if |data| > 0 {
      var n := |data| - 1;
      var prefix := data[..n];
      GroupByEntries(prefix, keyOf);
      var m := GroupBy(prefix, keyOf).value;
      var m' := GroupBy(data, keyOf).value;
      assert m' == AddScore(m, keyOf(data[n].0).value, data[n].1);
      forall i | 0 <= i < |data|
        ensures keyOf(data[i].0).Ok? && keyOf(data[i].0).value in m'
      {
        if i < n {
          assert data[i] == prefix[i];
        }
      }
    }
  }

  /** Every key of the dictionary is the key of some entry. */
  lemma {:induction false} GroupByKeys<V>(data: seq<(string, V)>, keyOf: string -> Result<string>)
    requires GroupBy(data, keyOf).Ok?
    ensures forall k :: k in GroupBy(data, keyOf).value ==>
              exists i :: 0 <= i < |data| && keyOf(data[i].0) == Ok(k)
    decreases |data|
  {
    if |data| > 0 {
      var n := |data| - 1;
      var prefix := data[..n];
      GroupByKeys(prefix, keyOf);
      var m := GroupBy(prefix, keyOf).value;
      var m' := GroupBy(data, keyOf).value;
      assert m' == AddScore(m, keyOf(data[n].0).value, data[n].1);
      forall k | k in m'
        ensures exists i :: 0 <= i < |data| && keyOf(data[i].0) == Ok(k)
      {
        if k in m {
          var i :| 0 <= i < n && keyOf(prefix[i].0) == Ok(k);
          assert data[i] == prefix[i];
        } else {
          assert keyOf(data[n].0) == Ok(k);
        }
      }
    }
  }

  /** No value is lost or duplicated: the lists hold as many values as
      there were entries. */
  lemma {:induction false} GroupByTotal<V>(data: seq<(string, V)>, keyOf: string -> Result<string>)
    requires GroupBy(data, keyOf).Ok?
    ensures TotalSize(GroupBy(data, keyOf).value) == |data|
    decreases |data|
  {
    if |data| > 0 {
      var n := |data| - 1;
      GroupByTotal(data[..n], keyOf);
      var m := GroupBy(data[..n], keyOf).value;
      AddScoreSize(m, keyOf(data[n].0).value, data[n].1);
    }
  }
}
