/** The `PlotSentiment` class: the quarter-of-month classifier, the
    bucketizer that groups (timestamp, score) pairs by year, month and
    quarter of the month, the key generator that lists those buckets
    (sorted, or filled out to every bucket of every year in range), the
    point transparency chosen from the largest bucket, and the x-axis label
    of a bucket. Scores are opaque values of a type parameter `V`. */
module PlotSentiment {
  import opened Failures
  import opened PyStr
  import opened KeySort
  import opened Grouping

  // ---------------------------------------------------------------------
  // __split_days: day of the month to quarter of the month
  // ---------------------------------------------------------------------

  /** The class-level sets `one` .. `four`: `range(1, 9)`, `range(9, 17)`,
      `range(17, 25)` and `range(25, 33)`. */
  const One: set<int> := set d | 1 <= d < 9
  const Two: set<int> := set d | 9 <= d < 17
  const Three: set<int> := set d | 17 <= d < 25
  const Four: set<int> := set d | 25 <= d < 33

  /** `__split_days(date_)`: `int(date_)`, then the first of the four sets
      that holds it. Days 1..32 are accepted (32 included); every other
      integer raises. */
  function SplitDays(dayText: string): (r: Result<int>)
    ensures ParseInt(dayText).Err? ==> r == Err(InvalidLiteral(dayText))
    ensures ParseInt(dayText).Ok? ==>
              var day := ParseInt(dayText).value;
              && (r.Ok? <==> 1 <= day <= 32)
              && (r.Ok? ==> r.value == (day - 1) / 8 + 1 && 1 <= r.value <= 4)
              && (r.Err? ==> r.error == DayOutOfRange(day))
  {
    match ParseInt(dayText)
    case Err(e) => Err(e)
    case Ok(date) =>
      if date in One then Ok(1)
      else if date in Two then Ok(2)
      else if date in Three then Ok(3)
      else if date in Four then Ok(4)
      else Err(DayOutOfRange(date))
  }

  // ---------------------------------------------------------------------
  // get_data_dict: the bucketizer
  // ---------------------------------------------------------------------

  /** A bucket key: year, month as written and the quarter number in
      parentheses, joined by dashes. */
  function BucketKey(year: string, month: string, quarter: int): string
  {
    year + "-" + month + "-(" + IntToString(quarter) + ")"
  }

  /** The three unpackings in the body of the loop in `get_data_dict`: the
      timestamp splits at a space into a date and a clock, the date splits
      at dashes into year, month and day, and the clock, without its last
      character, splits at colons into hour, minute and second. Each raises
      when its split has the wrong number of parts; the year, month and day
      fields are kept, the clock fields are discarded. */
  function StampFields(stamp: string): Result<(string, string, string)>
  {
    var halves := Split(stamp, ' ');
    if |halves| != 2 then Err(UnpackMismatch(2, |halves|))
    else
      var date := Split(halves[0], '-');
      if |date| != 3 then Err(UnpackMismatch(3, |date|))
      else
        var clock := Split(DropLast(halves[1]), ':');
        if |clock| != 3 then Err(UnpackMismatch(3, |clock|))
        else Ok((date[0], date[1], date[2]))
  }

  /** The key of one timestamp: its year and month fields as written, and
      the quarter of the month its day field falls in. */
  function StampKey(stamp: string): Result<string>
  {
    match StampFields(stamp)
    case Err(e) => Err(e)
    case Ok((year, month, day)) =>
      match SplitDays(day)
      case Err(e) => Err(e)
      case Ok(quarter) => Ok(BucketKey(year, month, quarter))
  }

  /** What `get_data_dict(data_array)` returns: the entries grouped by
      the key of their timestamp, or the exception of the first entry whose
      timestamp cannot be keyed. */
  function BucketMap<V>(data: seq<(string, V)>): Result<map<string, seq<V>>>
  {
    GroupBy(data, StampKey)
  }

  /** `get_data_dict(data_array)`: one pass over the entries, appending
      each score to its bucket in a dictionary built in place; the first
      timestamp that cannot be keyed aborts the pass. */
  method GetDataDict<V>(data: seq<(string, V)>) returns (r: Result<map<string, seq<V>>>)
    ensures r == BucketMap(data)
    ensures r.Ok? ==> forall k :: k in r.value ==> r.value[k] == Group(data, StampKey, k)
    ensures r.Ok? ==> forall i :: 0 <= i < |data| ==> StampKey(data[i].0).Ok? && StampKey(data[i].0).value in r.value
    ensures r.Ok? ==> TotalSize(r.value) == |data|
    ensures r.Err? <==> exists i :: 0 <= i < |data| && StampKey(data[i].0).Err?
  {
    var myDict: map<string, seq<V>> := map[];
    var i := 0;
    while i < |data|
      invariant 0 <= i <= |data|
      invariant GroupBy(data[..i], StampKey) == Ok(myDict)
    {
      var (dateTime, value) := data[i];
      assert data[..i + 1][..i] == data[..i];
      var key := StampKey(dateTime);
      if key.Err? {
        r := Err(key.error);
        assert data[..i + 1][i] == data[i];
        assert GroupBy(data[..i + 1], StampKey) == r;
        GroupByErrStays(data, StampKey, i + 1);
        GroupByFailure(data, StampKey);
        return;
      }
      myDict := myDict[key.value := (if key.value in myDict then myDict[key.value] else []) + [value]];
      i := i + 1;
    }
    assert data[..i] == data;
    r := Ok(myDict);
    GroupByFailure(data, StampKey);
    GroupByContents(data, StampKey);
    GroupByEntries(data, StampKey);
    GroupByTotal(data, StampKey);
  }

  // ---------------------------------------------------------------------
  // get_keys: the sorted keys, or the full grid of keys per year
  // ---------------------------------------------------------------------

  /** `get_keys` returns a flat list of keys when not filling, and one list
      of keys per year when filling. */
  datatype KeyList = Flat(keys: seq<string>) | Filled(groups: seq<seq<string>>)

  /** `int(key[:4])`: the year read from the first four characters. */
  function YearOf(key: string): Result<int>
  {
    ParseInt(key[..if |key| < 4 then |key| else 4])
  }

  /** A key of the filled grid: the already printed year, the month padded
      to two digits and the quarter in parentheses, joined by dashes. */
  function GridKey(year: string, month: nat, quarter: int): string
  {
    BucketKey(year, Pad2(month), quarter)
  }

  /** The 48 keys of one year: months 1..12, and within a month quarters
      1..4. */
  function YearKeys(year: string): (ks: seq<string>)
    ensures |ks| == 48
  {
    seq(48, i requires 0 <= i < 48 => GridKey(year, i / 4 + 1, i % 4 + 1))
  }

  /** Position `4 * (month - 1) + quarter - 1` of a year holds the key of
      that month and quarter. */
  lemma YearKeysAt(year: string, month: int, quarter: int)
    requires 1 <= month <= 12 && 1 <= quarter <= 4
    ensures YearKeys(year)[4 * (month - 1) + quarter - 1] == GridKey(year, month, quarter)
  {
    QuarterPosition(month, quarter);
  }

  lemma QuarterPosition(month: int, quarter: int)
    requires 1 <= month <= 12 && 1 <= quarter <= 4
    ensures var n := 4 * (month - 1) + quarter - 1;
            0 <= n < 48 && n / 4 == month - 1 && n % 4 == quarter - 1
  {
  }

  /** One group of keys per year from `lo` to `hi` inclusive: Python's
      `range(min_year, max_year + 1)`, empty when `hi < lo`. */
  function YearGrid(lo: int, hi: int): seq<seq<string>>
    decreases hi - lo
  {
    if hi < lo then [] else YearGrid(lo, hi - 1) + [YearKeys(IntToString(hi))]
  }

  /** The grid has `hi - lo + 1` groups (none when `hi < lo`), and group
      `i` holds the keys of year `lo + i`. */
  lemma {:induction false} YearGridAt(lo: int, hi: int)
    ensures |YearGrid(lo, hi)| == if lo <= hi then hi - lo + 1 else 0
    ensures forall i :: 0 <= i < |YearGrid(lo, hi)| ==> YearGrid(lo, hi)[i] == YearKeys(IntToString(lo + i))
    decreases hi - lo
  {
    if lo <= hi {
      YearGridAt(lo, hi - 1);
      var g := YearGrid(lo, hi);
      forall i | 0 <= i < |g| ensures g[i] == YearKeys(IntToString(lo + i)) {
        if i < hi - lo {
          assert g[i] == YearGrid(lo, hi - 1)[i];
        }
      }
    }
  }

  /** What `get_keys(my_dict, fill=True)` returns: the years are read from
      the smallest and the largest key; an empty dictionary raises on
      `keys[0]`. */
  ghost function FilledKeys<V>(d: map<string, V>): Result<KeyList>
  {
    if d.Keys == {} then Err(IndexOutOfRange)
    else
      match YearOf(LeastKey(d.Keys))
      case Err(e) => Err(e)
      case Ok(lo) =>
        match YearOf(GreatestKey(d.Keys))
        case Err(e) => Err(e)
        case Ok(hi) => Ok(Filled(YearGrid(lo, hi)))
  }

  /** `get_keys(my_dict, fill)`. Unfilled: every key once, in ascending
      string order. Filled: the grid of every year between the years of the
      smallest and the largest key. */
  method GetKeys<V>(d: map<string, V>, fill: bool) returns (r: Result<KeyList>)
    ensures !fill ==> r.Ok? && r.value.Flat?
    ensures !fill ==> |r.value.keys| == |d| && StrictlyAscending(r.value.keys)
    ensures !fill ==> forall k :: k in d <==> k in r.value.keys
    ensures fill ==> r == FilledKeys(d)
    ensures fill && |d| == 0 ==> r == Err(IndexOutOfRange)
  {
    var keys := ListKeys(d);
    ghost var listed := keys[..];
    SortKeys(keys);
    assert forall k :: k in keys[..] <==> k in listed by {
      forall k ensures k in keys[..] <==> k in listed {
        assert k in keys[..] <==> multiset(keys[..])[k] > 0;
        assert k in listed <==> multiset(listed)[k] > 0;
      }
    }
    if !fill {
      assert Distinct(keys[..]) by {
        assert forall x :: multiset(keys[..])[x] == multiset(listed)[x];
      }
      AscendingDistinct(keys[..]);
      r := Ok(Flat(keys[..]));
      return;
    }
    if keys.Length == 0 {
      assert |d.Keys| == 0;
      r := Err(IndexOutOfRange);
      return;
    }
    assert d.Keys != {} by {
      assert keys[0] in keys[..];
    }
    LeastIsFirst(keys[..], d.Keys);
    GreatestIsLast(keys[..], d.Keys);
    var first := YearOf(keys[0]);
    if first.Err? {
      r := Err(first.error);
      return;
    }
    var last := YearOf(keys[keys.Length - 1]);
    if last.Err? {
      r := Err(last.error);
      return;
    }
    var groups := FillYears(first.value, last.value);
    r := Ok(Filled(groups));
  }

  /** The outer loop of the filled branch: one group per year of
      `range(min_year, max_year + 1)`. */
  method FillYears(minYear: int, maxYear: int) returns (groups: seq<seq<string>>)
    ensures groups == YearGrid(minYear, maxYear)
  {
    groups := [];
    var year := minYear;
    while year < maxYear + 1
      invariant minYear <= year
      invariant year <= maxYear + 1 || year == minYear
      invariant groups == YearGrid(minYear, year - 1)
    {
      var yearlyKeys := FillYear(IntToString(year));
      groups := groups + [yearlyKeys];
      year := year + 1;
    }
  }

  /** The middle loop of the filled branch: months 1..12, each adding its
      four keys. */
  method FillYear(year: string) returns (yearlyKeys: seq<string>)
    ensures yearlyKeys == YearKeys(year)
  {
    yearlyKeys := [];
    var month := 1;
    while month < 13
      invariant 1 <= month <= 13
      invariant yearlyKeys == YearKeys(year)[..4 * (month - 1)]
    {
      var monthKeys := FillMonth(year, month);
      assert YearKeys(year)[..4 * month] == YearKeys(year)[..4 * (month - 1)] + YearKeys(year)[4 * (month - 1)..4 * month];
      yearlyKeys := yearlyKeys + monthKeys;
      month := month + 1;
    }
    assert yearlyKeys == YearKeys(year)[..48];
  }

  /** The inner loop of the filled branch: quarters 1..4 of one month. */
  method FillMonth(year: string, month: int) returns (monthKeys: seq<string>)
    requires 1 <= month <= 12
    ensures monthKeys == YearKeys(year)[4 * (month - 1)..4 * month]
  {
    monthKeys := [];
    var quarter := 1;
    while quarter < 5
      invariant 1 <= quarter <= 5
      invariant monthKeys == YearKeys(year)[4 * (month - 1)..4 * (month - 1) + quarter - 1]
    {
      ghost var n := 4 * (month - 1) + quarter - 1;
      assert YearKeys(year)[4 * (month - 1)..n + 1] == YearKeys(year)[4 * (month - 1)..n] + [YearKeys(year)[n]];
      YearKeysAt(year, month, quarter);
      monthKeys := monthKeys + [GridKey(year, month, quarter)];
      quarter := quarter + 1;
    }
  }

  /** The first element of a sorted list of the keys is the smallest key. */
  lemma LeastIsFirst(s: seq<string>, keys: set<string>)
    requires |s| > 0 && Ascending(s)
    requires forall k :: k in keys <==> k in s
    ensures keys != {} && LeastKey(keys) == s[0]
  {
    assert s[0] in keys;
    LexLessIrreflexive(s[0]);
    assert IsLeast(s[0], keys) by {
      forall k | k in keys ensures LexLe(s[0], k) {
        var j :| 0 <= j < |s| && s[j] == k;
      }
    }
    LexLeAntisymmetric(s[0], LeastKey(keys));
  }

  /** The last element of a sorted list of the keys is the largest key. */
  lemma GreatestIsLast(s: seq<string>, keys: set<string>)
    requires |s| > 0 && Ascending(s)
    requires forall k :: k in keys <==> k in s
    ensures keys != {} && GreatestKey(keys) == s[|s| - 1]
  {
    var z := s[|s| - 1];
    assert z in keys;
    LexLessIrreflexive(z);
    assert IsGreatest(z, keys) by {
      forall k | k in keys ensures LexLe(k, z) {
        var j :| 0 <= j < |s| && s[j] == k;
      }
    }
    LexLeAntisymmetric(z, GreatestKey(keys));
  }

  // ---------------------------------------------------------------------
  // get_alpha: the transparency of a score's point
  // ---------------------------------------------------------------------

  /** `m` is the largest bucket size, floored at 1. */
  ghost predicate IsMaxCount<V>(d: map<string, seq<V>>, m: nat)
  {
    && 1 <= m
    && (forall k :: k in d ==> |d[k]| <= m)
    && (m == 1 || exists k :: k in d && |d[k]| == m)
  }

  function Max(a: real, b: real): real
  {
    if b > a then b else a
  }

  /** The opacity for a largest bucket of `maxCount` scores: its reciprocal,
      but never below 0.05. */
  function AlphaFor(maxCount: nat): real
    requires maxCount >= 1
  {
    Max(0.05, 1.0 / maxCount as real)
  }

  /** One step of the running maximum: taking in one more bucket. */
  lemma MaxCountStep<V>(d: map<string, seq<V>>, rest: set<string>, key: string, m: nat)
    requires key in rest && rest <= d.Keys && IsMaxCount(d - rest, m)
    ensures IsMaxCount(d - (rest - {key}), if |d[key]| > m then |d[key]| else m)
  {
    var seen := d - (rest - {key});
    assert seen == (d - rest)[key := d[key]];
    if |d[key]| > m {
      assert key in seen && |seen[key]| == |d[key]|;
    } else if m != 1 {
      var k :| k in d - rest && |(d - rest)[k]| == m;
      assert k in seen && |seen[k]| == m;
    }
  }

  /** `get_alpha(my_dict)`: a running maximum of the bucket sizes, starting
      at 1, then the opacity for that largest bucket. */
  method GetAlpha<V>(d: map<string, seq<V>>) returns (alpha: real)
    ensures exists m :: IsMaxCount(d, m) && alpha == AlphaFor(m)
    ensures 0.05 <= alpha <= 1.0
    ensures alpha == 1.0 <==> forall k :: k in d ==> |d[k]| <= 1
  {
    var maxCount: nat := 1;
    var rest := d.Keys;
    while rest != {}
      invariant rest <= d.Keys
      invariant IsMaxCount(d - rest, maxCount)
      decreases |rest|
    {
      var key :| key in rest;
      MaxCountStep(d, rest, key, maxCount);
      maxCount := if |d[key]| > maxCount then |d[key]| else maxCount;
      rest := rest - {key};
    }
    assert d - rest == d;
    alpha := AlphaFor(maxCount);
    AlphaRange(d, maxCount);
  }

  /** The transparency lies between 0.05 and 1, and is fully opaque
      exactly when no bucket holds more than one score. */
  lemma AlphaRange<V>(d: map<string, seq<V>>, m: nat)
    requires IsMaxCount(d, m)
    ensures 0.05 <= AlphaFor(m) <= 1.0
    ensures AlphaFor(m) == 1.0 <==> forall k :: k in d ==> |d[k]| <= 1
  {
    assert 1.0 / m as real <= 1.0;
    if m > 1 {
      assert 1.0 / m as real < 1.0;
    }
  }

  // ---------------------------------------------------------------------
  // save_plot: the x-axis label of a key
  // ---------------------------------------------------------------------

  /** The label `save_plot` plots a key under: a key whose second-to-last
      character is `'3'` (the third quarter) is cut to its first seven
      characters, `YYYY-MM` for a four-digit year; every other key is its
      own label. `key[-2]` raises on a key shorter than two characters. */
  function PlotLabel(key: string): (r: Result<string>)
    ensures r.Err? <==> |key| < 2
    ensures r.Err? ==> r.error == IndexOutOfRange
    ensures r.Ok? ==> r.value <= key
    ensures r.Ok? ==> (r.value != key <==> key[|key| - 2] == '3' && |key| > 7)
    ensures r.Ok? && r.value != key ==> |r.value| == 7
  {
    if |key| < 2 then Err(IndexOutOfRange)
    else if key[|key| - 2] == '3' then Ok(key[..if |key| < 7 then |key| else 7])
    else Ok(key)
  }
}
