/** Properties that relate the operations of `PlotSentiment` to each other:
    the shape and order of the filled key grid, the keys that well-formed
    timestamps produce, the coverage of the bucketizer's keys by the grid,
    and the labels of the grid's keys. */
module PlotSentimentLemmas {
  import opened Failures
  import opened PyStr
  import opened KeySort
  import opened Grouping
  import opened PlotSentiment

  // ---------------------------------------------------------------------
  // The quarter of the month at the edges of its ranges
  // ---------------------------------------------------------------------

  /** The value of a two-digit literal. */
  lemma TwoDigitValue(s: string)
    requires |s| == 2 && AllDigits(s)
    ensures DigitsValue(s) == DigitValue(s[0]) * 10 + DigitValue(s[1])
  {
    var p := s[..1];
    assert DigitsValue(s) == DigitsValue(p) * 10 + DigitValue(s[1]);
    assert p[..0] == [] && p[0] == s[0];
    assert DigitsValue(p) == DigitsValue(p[..0]) * 10 + DigitValue(p[0]);
  }

  /** Day 0 and day 33 raise, and so does a day field that is not an
      integer literal. */
  lemma SplitDaysRejects()
    ensures SplitDays("0") == Err(DayOutOfRange(0))
    ensures SplitDays("33") == Err(DayOutOfRange(33))
    ensures SplitDays("x") == Err(InvalidLiteral("x"))
  {
    assert ParseInt("0") == Ok(0);
    TwoDigitValue("33");
    assert ParseInt("33") == Ok(33);
  }

  /** The first two quarters start and end where the class-level sets do
      (a zero-padded day reads as its value). */
  lemma SplitDaysFirstHalf()
    ensures SplitDays("1") == Ok(1) && SplitDays("08") == Ok(1)
    ensures SplitDays("9") == Ok(2) && SplitDays("16") == Ok(2)
  {
    assert ParseInt("1") == Ok(1);
    TwoDigitValue("08");
    assert ParseInt("08") == Ok(8);
    assert ParseInt("9") == Ok(9);
    TwoDigitValue("16");
    assert ParseInt("16") == Ok(16);
  }

  /** The last two quarters start and end where the class-level sets do:
      day 32 is accepted in the fourth quarter. */
  lemma SplitDaysSecondHalf()
    ensures SplitDays("17") == Ok(3) && SplitDays("24") == Ok(3)
    ensures SplitDays("25") == Ok(4) && SplitDays("32") == Ok(4)
  {
    TwoDigitValue("17");
    assert ParseInt("17") == Ok(17);
    TwoDigitValue("24");
    assert ParseInt("24") == Ok(24);
    TwoDigitValue("25");
    assert ParseInt("25") == Ok(25);
    TwoDigitValue("32");
    assert ParseInt("32") == Ok(32);
  }

  // ---------------------------------------------------------------------
  // The keys of one year
  // ---------------------------------------------------------------------

  /** The printed quarter: one digit. */
  lemma QuarterText(q: int)
    requires 1 <= q <= 4
    ensures IntToString(q) == [DigitChar(q)]
  {
  }

  /** The value of a padded month is the month. */
  lemma Pad2Value(m: nat)
    requires m < 100
    ensures |Pad2(m)| == 2 && AllDigits(Pad2(m)) && DigitsValue(Pad2(m)) == m
  {
    Pad2Length(m);
    Pad2RoundTrip(m);
  }

  /** A grid key split at the end of its year part. */
  lemma GridKeyShape(ys: string, m: nat, q: int)
    requires 1 <= q <= 4
    ensures GridKey(ys, m, q) == (ys + "-") + (Pad2(m) + ("-(" + [DigitChar(q)] + ")"))
  {
    QuarterText(q);
  }

  /** Within one year the keys are ordered by month, then by quarter. */
  lemma GridKeyOrder(ys: string, m1: nat, q1: int, m2: nat, q2: int)
    requires 1 <= m1 <= 12 && 1 <= m2 <= 12 && 1 <= q1 <= 4 && 1 <= q2 <= 4
    requires m1 < m2 || (m1 == m2 && q1 < q2)
    ensures LexLess(GridKey(ys, m1, q1), GridKey(ys, m2, q2))
  {
    var p := ys + "-";
    GridKeyShape(ys, m1, q1);
    GridKeyShape(ys, m2, q2);
    var t1, t2 := "-(" + [DigitChar(q1)] + ")", "-(" + [DigitChar(q2)] + ")";
    if m1 < m2 {
      Pad2Value(m1);
      Pad2Value(m2);
      DigitsOrder(Pad2(m1), Pad2(m2));
      LexLessExtend(Pad2(m1), Pad2(m2), t1, t2);
    } else {
      var c1, c2 := [DigitChar(q1)], [DigitChar(q2)];
      assert LexLess(c1, c2);
      LexLessExtend(c1, c2, ")", ")");
      LexLessCommonPrefix(Pad2(m1) + "-(", c1 + ")", c2 + ")");
      assert Pad2(m1) + t1 == (Pad2(m1) + "-(") + (c1 + ")");
      assert Pad2(m2) + t2 == (Pad2(m1) + "-(") + (c2 + ")");
    }
    LexLessCommonPrefix(p, Pad2(m1) + t1, Pad2(m2) + t2);
  }

  /** The 48 keys of a year are in strictly ascending string order, so the
      filled grid lists a year's buckets in the order a sort would. */
  lemma YearKeysAscending(ys: string)
    ensures StrictlyAscending(YearKeys(ys))
  {
    var ks := YearKeys(ys);
    forall i, j | 0 <= i < j < |ks| ensures LexLess(ks[i], ks[j]) {
      YearKeysPairOrder(ys, i, j);
    }
  }

  lemma YearKeysPairOrder(ys: string, i: int, j: int)
    requires 0 <= i < j < 48
    ensures LexLess(YearKeys(ys)[i], YearKeys(ys)[j])
  {
    var m1, q1, m2, q2 := i / 4 + 1, i % 4 + 1, j / 4 + 1, j % 4 + 1;
    PositionOrder(i, j);
    YearKeysIndex(ys, i);
    YearKeysIndex(ys, j);
    GridKeyOrder(ys, m1, q1, m2, q2);
  }

  lemma YearKeysIndex(ys: string, i: int)
    requires 0 <= i < 48
    ensures YearKeys(ys)[i] == GridKey(ys, i / 4 + 1, i % 4 + 1)
  {
  }

  /** Position `i` of a year's keys holds a month and a quarter in range
      that lead back to `i`. */
  lemma PositionFields(i: int)
    requires 0 <= i < 48
    ensures 1 <= i / 4 + 1 <= 12 && 1 <= i % 4 + 1 <= 4
    ensures 4 * (i / 4) + i % 4 == i
  {
  }

  /** Positions in the grid of a year are ordered by month, then quarter. */
  lemma PositionOrder(i: int, j: int)
    requires 0 <= i < j < 48
    ensures 1 <= i / 4 + 1 <= 12 && 1 <= j / 4 + 1 <= 12 && 1 <= i % 4 + 1 <= 4 && 1 <= j % 4 + 1 <= 4
    ensures i / 4 < j / 4 || (i / 4 == j / 4 && i % 4 < j % 4)
  {
  }

  /** Every key of a year starts with the year and a dash. */
  lemma YearKeysPrefix(ys: string)
    ensures forall k :: k in YearKeys(ys) ==> |ys| + 1 <= |k| && k[..|ys| + 1] == ys + "-"
  {
    forall k | k in YearKeys(ys) ensures |ys| + 1 <= |k| && k[..|ys| + 1] == ys + "-" {
      var i :| 0 <= i < 48 && YearKeys(ys)[i] == k;
      PositionFields(i);
      YearKeysIndex(ys, i);
      GridKeyPrefix(ys, i / 4 + 1, i % 4 + 1);
    }
  }

  /** A grid key is its year followed by the rest of the key, and the rest
      starts with a dash. */
  lemma GridKeyPrefix(ys: string, m: nat, q: int)
    requires 1 <= q <= 4
    ensures var k := GridKey(ys, m, q);
            && |ys| + 1 <= |k| && k[..|ys| + 1] == ys + "-"
            && k == ys + k[|ys|..]
  {
    GridKeyShape(ys, m, q);
    var p := ys + "-";
    var rest := Pad2(m) + ("-(" + [DigitChar(q)] + ")");
    var k := p + rest;
    assert k[..|p|] == p;
    assert k == ys + k[|ys|..];
  }

  // ---------------------------------------------------------------------
  // The filled grid across years
  // ---------------------------------------------------------------------

  /** Every group of the grid holds the 48 keys of its year, in ascending
      order, each starting with that year. */
  lemma YearGridShape(lo: int, hi: int)
    ensures forall i :: 0 <= i < |YearGrid(lo, hi)| ==>
              |YearGrid(lo, hi)[i]| == 48 && StrictlyAscending(YearGrid(lo, hi)[i])
    ensures forall i, k :: 0 <= i < |YearGrid(lo, hi)| && k in YearGrid(lo, hi)[i] ==>
              |IntToString(lo + i)| + 1 <= |k| && k[..|IntToString(lo + i)| + 1] == IntToString(lo + i) + "-"
  {
    forall i | 0 <= i < |YearGrid(lo, hi)|
      ensures |YearGrid(lo, hi)[i]| == 48 && StrictlyAscending(YearGrid(lo, hi)[i])
      ensures forall k :: k in YearGrid(lo, hi)[i] ==>
                |IntToString(lo + i)| + 1 <= |k| && k[..|IntToString(lo + i)| + 1] == IntToString(lo + i) + "-"
    {
      YearGridIndex(lo, hi, i);
      YearKeysShape(IntToString(lo + i));
    }
  }

  /** The 48 keys of one year, in ascending order, each starting with the
      year and a dash. */
  lemma YearKeysShape(ys: string)
    ensures |YearKeys(ys)| == 48 && StrictlyAscending(YearKeys(ys))
    ensures forall k :: k in YearKeys(ys) ==> |ys| + 1 <= |k| && k[..|ys| + 1] == ys + "-"
  {
    YearKeysAscending(ys);
    YearKeysPrefix(ys);
  }

  /** The shape of a filled result: one group per year from the year of
      the smallest key to the year of the largest, each group the 48 keys
      of its year in ascending order. */
  lemma FilledKeysShape<V>(d: map<string, V>)
    requires FilledKeys(d).Ok?
    ensures d.Keys != {} && YearOf(LeastKey(d.Keys)).Ok? && YearOf(GreatestKey(d.Keys)).Ok?
    ensures var lo, hi := YearOf(LeastKey(d.Keys)).value, YearOf(GreatestKey(d.Keys)).value;
            var g := FilledKeys(d).value.groups;
            && |g| == (if lo <= hi then hi - lo + 1 else 0)
            && forall i :: 0 <= i < |g| ==> g[i] == YearKeys(IntToString(lo + i)) && |g[i]| == 48 && StrictlyAscending(g[i])
  {
    var lo, hi := YearOf(LeastKey(d.Keys)).value, YearOf(GreatestKey(d.Keys)).value;
    assert FilledKeys(d).value.groups == YearGrid(lo, hi);
    YearGridLength(lo, hi);
    forall i | 0 <= i < |YearGrid(lo, hi)|
      ensures YearGrid(lo, hi)[i] == YearKeys(IntToString(lo + i))
      ensures |YearGrid(lo, hi)[i]| == 48 && StrictlyAscending(YearGrid(lo, hi)[i])
    {
      YearGridIndex(lo, hi, i);
      YearKeysShape(IntToString(lo + i));
    }
  }

  /** With four-digit years, every key of an earlier year comes before
      every key of a later one. */
  lemma YearKeysBefore(y: int, z: int, a: string, b: string)
    requires 1000 <= y < z <= 9999
    requires a in YearKeys(IntToString(y)) && b in YearKeys(IntToString(z))
    ensures LexLess(a, b)
  {
    var ys, zs := IntToString(y), IntToString(z);
    KeyOfYearStarts(ys, a);
    KeyOfYearStarts(zs, b);
    YearOrder(y, z, a[|ys|..], b[|zs|..]);
  }

  lemma KeyOfYearStarts(ys: string, k: string)
    requires k in YearKeys(ys)
    ensures |ys| <= |k| && k == ys + k[|ys|..]
  {
    var i :| 0 <= i < 48 && YearKeys(ys)[i] == k;
    PositionFields(i);
    YearKeysIndex(ys, i);
    GridKeyPrefix(ys, i / 4 + 1, i % 4 + 1);
  }

  /** With four-digit years, the groups read one after the other are in
      strictly ascending order. */
  lemma YearGridOrdered(lo: int, hi: int)
    requires 1000 <= lo && hi <= 9999
    ensures forall i, j, a, b :: 0 <= i < j < |YearGrid(lo, hi)| && a in YearGrid(lo, hi)[i] && b in YearGrid(lo, hi)[j] ==>
              LexLess(a, b)
  {
    forall i, j, a, b | 0 <= i < j < |YearGrid(lo, hi)| && a in YearGrid(lo, hi)[i] && b in YearGrid(lo, hi)[j]
      ensures LexLess(a, b)
    {
      GroupsBefore(lo, hi, i, j, a, b);
    }
  }

  lemma GroupsBefore(lo: int, hi: int, i: int, j: int, a: string, b: string)
    requires 1000 <= lo && hi <= 9999
    requires 0 <= i < j < |YearGrid(lo, hi)| && a in YearGrid(lo, hi)[i] && b in YearGrid(lo, hi)[j]
    ensures LexLess(a, b)
  {
    YearGridIndex(lo, hi, i);
    YearGridIndex(lo, hi, j);
    YearKeysBefore(lo + i, lo + j, a, b);
  }

  lemma YearGridLength(lo: int, hi: int)
    ensures |YearGrid(lo, hi)| == if lo <= hi then hi - lo + 1 else 0
  {
    YearGridAt(lo, hi);
  }

  lemma YearGridIndex(lo: int, hi: int, i: int)
    requires 0 <= i < |YearGrid(lo, hi)|
    ensures lo + i <= hi && YearGrid(lo, hi)[i] == YearKeys(IntToString(lo + i))
  {
    YearGridAt(lo, hi);
  }

  // ---------------------------------------------------------------------
  // Timestamps and their keys
  // ---------------------------------------------------------------------

  /** A post's creation time, as `created_at` holds it, without
      fractional seconds. */
  datatype DateTime = DateTime(year: int, month: nat, day: nat, hour: nat, minute: nat, second: nat)

  /** A time in a four-digit year with fields in their ranges. */
  predicate ValidDateTime(t: DateTime)
  {
    && 1000 <= t.year <= 9999 && 1 <= t.month <= 12 && 1 <= t.day <= 31
    && t.hour < 24 && t.minute < 60 && t.second < 60
  }

  /** `str(created_at)`: `YYYY-MM-DD HH:MM:SS`. */
  function DateTimeString(t: DateTime): string
  {
    IntToString(t.year) + "-" + Pad2(t.month) + "-" + Pad2(t.day) + " "
      + Pad2(t.hour) + ":" + Pad2(t.minute) + ":" + Pad2(t.second)
  }

  /** A timestamp as `analyze_user` records it. */
  ghost predicate IsCanonicalStamp(s: string)
  {
    exists t :: ValidDateTime(t) && s == DateTimeString(t)
  }

  /** A digit string holds none of the separators. */
  lemma DigitsFree(s: string, c: char)
    requires AllDigits(s) && !IsDigit(c)
    ensures c !in s
  {
  }

  /** A timestamp made of a date of three dash-free fields, a space, and a
      time that still splits into three fields at the colons once its last
      character is dropped, yields its three date fields as written. */
  lemma StampFieldsOf(year: string, month: string, day: string, clock: string)
    requires ' ' !in year && ' ' !in month && ' ' !in day && ' ' !in clock
    requires '-' !in year && '-' !in month && '-' !in day
    requires |Split(DropLast(clock), ':')| == 3
    ensures StampFields(year + "-" + month + "-" + day + " " + clock) == Ok((year, month, day))
  {
    var date := year + "-" + month + "-" + day;
    DateFields(year, month, day);
    assert ' ' !in date;
    SplitTwo(date, clock, ' ');
    assert year + "-" + month + "-" + day + " " + clock == date + [' '] + clock;
  }

  lemma DateFields(year: string, month: string, day: string)
    requires '-' !in year && '-' !in month && '-' !in day
    ensures Split(year + "-" + month + "-" + day, '-') == [year, month, day]
  {
    SplitThree(year, month, day, '-');
    assert year + "-" + month + "-" + day == year + ['-'] + month + ['-'] + day;
  }

  /** The time part of a canonical timestamp splits into three fields even
      after its last character is dropped. */
  lemma ClockFields(h: nat, mi: nat, sec: nat)
    requires h < 100 && mi < 100 && sec < 100
    ensures ' ' !in Pad2(h) + ":" + Pad2(mi) + ":" + Pad2(sec)
    ensures |Split(DropLast(Pad2(h) + ":" + Pad2(mi) + ":" + Pad2(sec)), ':')| == 3
  {
    Pad2Length(h);
    Pad2Length(mi);
    Pad2Length(sec);
    var clock := Pad2(h) + ":" + Pad2(mi) + ":" + Pad2(sec);
    var last := Pad2(sec)[..1];
    assert AllDigits(clock[..2]) && AllDigits(clock[3..5]) && AllDigits(clock[6..]);
    assert clock == clock[..2] + ":" + clock[3..5] + ":" + clock[6..];
    DigitsFree(clock[..2], ' ');
    DigitsFree(clock[3..5], ' ');
    DigitsFree(clock[6..], ' ');
    assert DropLast(clock) == Pad2(h) + [':'] + Pad2(mi) + [':'] + last;
    DigitsFree(Pad2(h), ':');
    DigitsFree(Pad2(mi), ':');
    DigitsFree(last, ':');
    SplitThree(Pad2(h), Pad2(mi), last, ':');
  }

  /** A canonical timestamp falls in the bucket of its year, its padded
      month and the quarter of the month its day lies in: the same key the
      filled grid lists. */
  lemma CanonicalStampKey(t: DateTime)
    requires ValidDateTime(t)
    ensures StampKey(DateTimeString(t)) == Ok(GridKey(IntToString(t.year), t.month, (t.day - 1) / 8 + 1))
  {
    CanonicalStampFields(t);
    Pad2RoundTrip(t.day);
    SplitDaysOf(Pad2(t.day), t.day);
  }

  /** A day field that reads as a day of the month is classified into
      the quarter of the month that day lies in. */
  lemma SplitDaysOf(dayText: string, day: int)
    requires ParseInt(dayText) == Ok(day) && 1 <= day <= 32
    ensures SplitDays(dayText) == Ok((day - 1) / 8 + 1)
  {
  }

  /** The date fields of a canonical timestamp are its printed year, month
      and day. */
  lemma CanonicalStampFields(t: DateTime)
    requires ValidDateTime(t)
    ensures StampFields(DateTimeString(t)) == Ok((IntToString(t.year), Pad2(t.month), Pad2(t.day)))
  {
    var y, mo, d := t.year, t.month, t.day;
    FourDigitYear(y);
    Pad2Length(mo);
    Pad2Length(d);
    DigitsFree(IntToString(y), ' ');
    DigitsFree(IntToString(y), '-');
    DigitsFree(Pad2(mo), ' ');
    DigitsFree(Pad2(mo), '-');
    DigitsFree(Pad2(d), ' ');
    DigitsFree(Pad2(d), '-');
    ClockFields(t.hour, t.minute, t.second);
    var clock := Pad2(t.hour) + ":" + Pad2(t.minute) + ":" + Pad2(t.second);
    assert DateTimeString(t) == IntToString(y) + "-" + Pad2(mo) + "-" + Pad2(d) + " " + clock;
    StampFieldsOf(IntToString(y), Pad2(mo), Pad2(d), clock);
  }

  /** Two posts of the same month whose days fall in the same quarter of
      the month share one bucket, which keeps their scores in input order
      (e.g. `2021-03-05` and `2021-03-07` both go to `2021-03-(1)`). */
  lemma SameQuarterShareBucket<V>(t1: DateTime, a: V, t2: DateTime, b: V)
    requires ValidDateTime(t1) && ValidDateTime(t2)
    requires t1.year == t2.year && t1.month == t2.month && (t1.day - 1) / 8 == (t2.day - 1) / 8
    ensures BucketMap([(DateTimeString(t1), a), (DateTimeString(t2), b)])
            == Ok(map[GridKey(IntToString(t1.year), t1.month, (t1.day - 1) / 8 + 1) := [a, b]])
  {
    CanonicalStampKey(t1);
    CanonicalStampKey(t2);
    var data := [(DateTimeString(t1), a), (DateTimeString(t2), b)];
    var key := GridKey(IntToString(t1.year), t1.month, (t1.day - 1) / 8 + 1);
    assert data[..1][..0] == [];
    assert data[..1][0] == data[0];
    assert StampKey(data[0].0) == Ok(key);
    assert GroupBy(data[..1][..0], StampKey) == Ok(map[]);
    assert GroupBy(data[..1], StampKey) == Ok(AddScore(map[], key, a));
    var none: seq<V> := [];
    assert none + [a] == [a] && [a] + [b] == [a, b];
    assert AddScore(map[], key, a) == map[key := [a]];
    assert data[..1] == data[..|data| - 1];
    assert StampKey(data[1].0) == Ok(key);
    assert GroupBy(data, StampKey) == Ok(AddScore(map[key := [a]], key, b));
    assert AddScore(map[key := [a]], key, b) == map[key := [a, b]];
  }

  // ---------------------------------------------------------------------
  // Coverage: the filled grid lists every bucket
  // ---------------------------------------------------------------------

  /** A key the filled grid can list, for a four-digit year. */
  ghost predicate IsGridKey(k: string)
  {
    exists y, m, q :: 1000 <= y <= 9999 && 1 <= m <= 12 && 1 <= q <= 4 && k == GridKey(IntToString(y), m, q)
  }

  /** `int(key[:4])` reads back the year of a grid key. */
  lemma YearOfGridKey(y: int, m: nat, q: int)
    requires 1000 <= y <= 9999 && 1 <= q <= 4
    ensures YearOf(GridKey(IntToString(y), m, q)) == Ok(y)
  {
    FourDigitYear(y);
    GridKeyShape(IntToString(y), m, q);
    assert GridKey(IntToString(y), m, q)[..4] == IntToString(y);
    IntRoundTrip(y);
  }

  /** Of two grid keys, the one of the earlier year comes first. */
  lemma GridKeyYearsOrdered(a: string, ya: int, ma: nat, qa: int, b: string, yb: int, mb: nat, qb: int)
    requires 1000 <= ya <= 9999 && 1 <= ma <= 12 && 1 <= qa <= 4 && a == GridKey(IntToString(ya), ma, qa)
    requires 1000 <= yb <= 9999 && 1 <= mb <= 12 && 1 <= qb <= 4 && b == GridKey(IntToString(yb), mb, qb)
    requires LexLe(a, b)
    ensures ya <= yb
  {
    if yb < ya {
      YearKeysAt(IntToString(yb), mb, qb);
      YearKeysAt(IntToString(ya), ma, qa);
      YearKeysBefore(yb, ya, b, a);
    }
  }

  /** Filling the keys of `d` does not raise, and the group of year `year`
      (group `year - lo`, where `lo` is the year of the smallest key)
      lists `k`. */
  ghost predicate InYearGroup<V>(d: map<string, V>, k: string, year: int)
  {
    && d.Keys != {} && FilledKeys(d).Ok? && YearOf(LeastKey(d.Keys)).Ok?
    && var lo, g := YearOf(LeastKey(d.Keys)).value, FilledKeys(d).value.groups;
       0 <= year - lo < |g| && k in g[year - lo]
  }

  /** When every key of a non-empty dictionary is a grid key, filling does
      not raise, and every key of the dictionary is in the group of its own
      year: the plot of each year covers that year's buckets. */
  lemma FilledCoversGridKeys<V>(d: map<string, V>)
    requires d.Keys != {}
    requires forall k :: k in d ==> IsGridKey(k)
    ensures FilledKeys(d).Ok?
    ensures forall y, m, q | 1000 <= y <= 9999 && 1 <= m <= 12 && 1 <= q <= 4 && GridKey(IntToString(y), m, q) in d ::
              InYearGroup(d, GridKey(IntToString(y), m, q), y)
    ensures forall k :: k in d ==>
              exists i :: 0 <= i < |FilledKeys(d).value.groups| && k in FilledKeys(d).value.groups[i]
  {
    var k0 :| k0 in d;
    FilledSomeGroup(d, k0);
    forall y, m, q | 1000 <= y <= 9999 && 1 <= m <= 12 && 1 <= q <= 4 && GridKey(IntToString(y), m, q) in d
      ensures InYearGroup(d, GridKey(IntToString(y), m, q), y)
    {
      FilledOwnYear(d, y, m, q);
    }
    forall k | k in d
      ensures exists i :: 0 <= i < |FilledKeys(d).value.groups| && k in FilledKeys(d).value.groups[i]
    {
      FilledSomeGroup(d, k);
    }
  }

  /** A key of a dictionary of grid keys is in some group of the filled
      grid. */
  lemma FilledSomeGroup<V>(d: map<string, V>, k: string)
    requires forall k :: k in d ==> IsGridKey(k)
    requires k in d
    ensures FilledKeys(d).Ok?
    ensures exists i :: 0 <= i < |FilledKeys(d).value.groups| && k in FilledKeys(d).value.groups[i]
  {
    var y, m, q :| 1000 <= y <= 9999 && 1 <= m <= 12 && 1 <= q <= 4 && k == GridKey(IntToString(y), m, q);
    FilledOwnYear(d, y, m, q);
  }

  /** One grid key of the dictionary lies in the group of its own year. */
  lemma FilledOwnYear<V>(d: map<string, V>, y: int, m: int, q: int)
    requires forall k :: k in d ==> IsGridKey(k)
    requires 1000 <= y <= 9999 && 1 <= m <= 12 && 1 <= q <= 4 && GridKey(IntToString(y), m, q) in d
    ensures InYearGroup(d, GridKey(IntToString(y), m, q), y)
  {
    var lo, hi := KeyYearBounds(d, y, m, q);
    assert FilledKeys(d) == Ok(Filled(YearGrid(lo, hi)));
    InYearGrid(lo, hi, y, m, q);
  }

  /** The year of a grid key of the dictionary lies between the years of
      the smallest and the largest key. */
  lemma KeyYearBounds<V>(d: map<string, V>, y: int, m: int, q: int) returns (lo: int, hi: int)
    requires forall k :: k in d ==> IsGridKey(k)
    requires 1000 <= y <= 9999 && 1 <= m <= 12 && 1 <= q <= 4 && GridKey(IntToString(y), m, q) in d
    ensures YearOf(LeastKey(d.Keys)) == Ok(lo) && YearOf(GreatestKey(d.Keys)) == Ok(hi)
    ensures lo <= y <= hi
  {
    var k := GridKey(IntToString(y), m, q);
    var least, greatest := LeastKey(d.Keys), GreatestKey(d.Keys);
    var m0, q0, m1, q1;
    lo, m0, q0 :| 1000 <= lo <= 9999 && 1 <= m0 <= 12 && 1 <= q0 <= 4 && least == GridKey(IntToString(lo), m0, q0);
    hi, m1, q1 :| 1000 <= hi <= 9999 && 1 <= m1 <= 12 && 1 <= q1 <= 4 && greatest == GridKey(IntToString(hi), m1, q1);
    YearOfGridKey(lo, m0, q0);
    YearOfGridKey(hi, m1, q1);
    GridKeyYearsOrdered(least, lo, m0, q0, k, y, m, q);
    GridKeyYearsOrdered(k, y, m, q, greatest, hi, m1, q1);
  }

  /** A grid key of a year in range is in the group of that year. */
  lemma InYearGrid(lo: int, hi: int, y: int, m: int, q: int)
    requires lo <= y <= hi && 1 <= m <= 12 && 1 <= q <= 4
    ensures 0 <= y - lo < |YearGrid(lo, hi)| && GridKey(IntToString(y), m, q) in YearGrid(lo, hi)[y - lo]
  {
    YearGridAt(lo, hi);
    YearKeysAt(IntToString(y), m, q);
  }

  /** The key of a canonical timestamp is a grid key. */
  lemma CanonicalStampOnGrid(s: string)
    requires IsCanonicalStamp(s)
    ensures StampKey(s).Ok? && IsGridKey(StampKey(s).value)
  {
    var t :| ValidDateTime(t) && s == DateTimeString(t);
    CanonicalStampKey(t);
    DayQuarter(t.day);
    GridKeyOnGrid(t.year, t.month, (t.day - 1) / 8 + 1);
  }

  lemma DayQuarter(day: int)
    requires 1 <= day <= 32
    ensures 1 <= (day - 1) / 8 + 1 <= 4
  {
  }

  lemma GridKeyOnGrid(y: int, m: int, q: int)
    requires 1000 <= y <= 9999 && 1 <= m <= 12 && 1 <= q <= 4
    ensures IsGridKey(GridKey(IntToString(y), m, q))
  {
  }

  /** End to end: when every timestamp is a canonical one, bucketing does
      not raise, every bucket it produces is listed by the filled key grid,
      so `save_plot` draws every score, and the bucket of each post is in
      the group of the post's own year, so the plot of that year draws it. */
  lemma CanonicalBucketsOnGrid<V>(data: seq<(string, V)>)
    requires |data| > 0
    requires forall i :: 0 <= i < |data| ==> IsCanonicalStamp(data[i].0)
    ensures BucketMap(data).Ok?
    ensures FilledKeys(BucketMap(data).value).Ok?
    ensures forall k :: k in BucketMap(data).value ==>
              exists i :: 0 <= i < |FilledKeys(BucketMap(data).value).value.groups|
                          && k in FilledKeys(BucketMap(data).value).value.groups[i]
    ensures forall i :: 0 <= i < |data| ==> StampKey(data[i].0).Ok?
    ensures forall i, t | 0 <= i < |data| && ValidDateTime(t) && data[i].0 == DateTimeString(t) ::
              InYearGroup(BucketMap(data).value, StampKey(data[i].0).value, t.year)
  {
    CanonicalBucketsAreGridKeys(data);
    var m := BucketMap(data).value;
    FilledCoversGridKeys(m);
    forall i, t | 0 <= i < |data| && ValidDateTime(t) && data[i].0 == DateTimeString(t)
      ensures InYearGroup(m, StampKey(data[i].0).value, t.year)
    {
      CanonicalStampKey(t);
      PostInOwnYear(m, data[i].0, t);
    }
  }

  /** Bucketing canonical timestamps does not raise, and gives a
      non-empty dictionary of grid keys holding the key of every post. */
  lemma CanonicalBucketsAreGridKeys<V>(data: seq<(string, V)>)
    requires |data| > 0
    requires forall i :: 0 <= i < |data| ==> IsCanonicalStamp(data[i].0)
    ensures BucketMap(data).Ok? && BucketMap(data).value.Keys != {}
    ensures forall k :: k in BucketMap(data).value ==> IsGridKey(k)
    ensures forall i :: 0 <= i < |data| ==> StampKey(data[i].0).Ok? && StampKey(data[i].0).value in BucketMap(data).value
  {
    forall i | 0 <= i < |data| ensures StampKey(data[i].0).Ok? && IsGridKey(StampKey(data[i].0).value) {
      CanonicalStampOnGrid(data[i].0);
    }
    GroupByFailure(data, StampKey);
    GroupByEntries(data, StampKey);
    assert StampKey(data[0].0).value in BucketMap(data).value;
    GroupByKeys(data, StampKey);
  }

  /** In a dictionary of grid keys, the key of a post whose timestamp
      prints time `t` is in the group of the year of `t`. */
  lemma PostInOwnYear<V>(m: map<string, V>, stamp: string, t: DateTime)
    requires forall k :: k in m ==> IsGridKey(k)
    requires ValidDateTime(t) && StampKey(stamp) == Ok(GridKey(IntToString(t.year), t.month, (t.day - 1) / 8 + 1))
    requires StampKey(stamp).value in m
    ensures InYearGroup(m, StampKey(stamp).value, t.year)
  {
    DateInOwnYear(m, t.year, t.month, t.day);
  }

  /** In a dictionary of grid keys, the key of a date is in the group of
      the date's year. */
  lemma DateInOwnYear<V>(m: map<string, V>, year: int, month: nat, day: int)
    requires forall k :: k in m ==> IsGridKey(k)
    requires 1000 <= year <= 9999 && 1 <= month <= 12 && 1 <= day <= 31
    requires GridKey(IntToString(year), month, (day - 1) / 8 + 1) in m
    ensures InYearGroup(m, GridKey(IntToString(year), month, (day - 1) / 8 + 1), year)
  {
    DayQuarter(day);
    FilledOwnYear(m, year, month, (day - 1) / 8 + 1);
  }

  // ---------------------------------------------------------------------
  // Keys that the grid does not list, and the labels of grid keys
  // ---------------------------------------------------------------------

  /** A grid key of a four-digit year is eleven characters long. */
  lemma GridKeyLength(y: int, m: nat, q: int)
    requires 1000 <= y <= 9999 && 1 <= m <= 12 && 1 <= q <= 4
    ensures |GridKey(IntToString(y), m, q)| == 11
  {
    FourDigitYear(y);
    Pad2Length(m);
    GridKeyShape(IntToString(y), m, q);
  }

  /** The bucketizer copies the month field as written while the grid pads
      it: a timestamp whose month is written with one digit (`2021-3-05`)
      gets a key that no group of a four-digit-year grid lists, so its
      scores are never plotted. */
  lemma UnpaddedMonthOffGrid(y: int, m: nat, dayText: string, clock: string)
    requires 1000 <= y <= 9999 && 1 <= m <= 9
    requires AllDigits(dayText) && ' ' !in clock && |Split(DropLast(clock), ':')| == 3
    requires SplitDays(dayText).Ok?
    ensures StampKey(IntToString(y) + "-" + NatToString(m) + "-" + dayText + " " + clock)
            == Ok(BucketKey(IntToString(y), NatToString(m), SplitDays(dayText).value))
    ensures forall z :: 1000 <= z <= 9999 ==>
              BucketKey(IntToString(y), NatToString(m), SplitDays(dayText).value) !in YearKeys(IntToString(z))
  {
    FourDigitYear(y);
    DigitsFree(IntToString(y), ' ');
    DigitsFree(IntToString(y), '-');
    DigitsFree(NatToString(m), ' ');
    DigitsFree(NatToString(m), '-');
    DigitsFree(dayText, ' ');
    DigitsFree(dayText, '-');
    StampFieldsOf(IntToString(y), NatToString(m), dayText, clock);
    var q := SplitDays(dayText).value;
    var key := BucketKey(IntToString(y), NatToString(m), q);
    assert |NatToString(m)| == 1 && |IntToString(q)| == 1;
    forall z | 1000 <= z <= 9999 ensures key !in YearKeys(IntToString(z)) {
      forall i | 0 <= i < 48 ensures YearKeys(IntToString(z))[i] != key {
        PositionFields(i);
        YearKeysIndex(IntToString(z), i);
        GridKeyLength(z, i / 4 + 1, i % 4 + 1);
      }
    }
  }

  /** On the grid the label rule marks the third quarter of every month:
      its key is labelled with the year and the month, and every other key
      is labelled with itself. */
  lemma GridKeyLabel(y: int, m: nat, q: int)
    requires 1000 <= y <= 9999 && 1 <= m <= 12 && 1 <= q <= 4
    ensures PlotLabel(GridKey(IntToString(y), m, q)) == Ok(if q == 3 then IntToString(y) + "-" + Pad2(m) else GridKey(IntToString(y), m, q))
  {
    FourDigitYear(y);
    Pad2Length(m);
    GridKeyShape(IntToString(y), m, q);
    var k := GridKey(IntToString(y), m, q);
    assert k[9] == DigitChar(q);
    if q == 3 {
      assert k[..7] == IntToString(y) + "-" + Pad2(m);
    }
  }
}
