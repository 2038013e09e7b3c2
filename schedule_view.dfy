/**
 * The display rules applied to the schedule the server returns: its dates are shown in
 * ascending order, and each task's hour count gets a singular or plural unit.
 */
module ScheduleView {
  import opened Results

  /** One study task of a day, as returned by the scheduling service. */
  datatype Task = Task(subject: string, chapter: string, hours: real)

  /** The server's schedule: date string to that day's tasks. */
  type Schedule = map<string, seq<Task>>

  /**
   * Strict lexicographic order on strings. On `YYYY-MM-DD` full-dates (section 5.6 of
   * RFC 3339) it is the chronological order (section 5.1 of RFC 3339), which is what the
   * `new Date(a) - new Date(b)` comparator computes.
   */
  predicate Less(a: string, b: string) {
    |b| > 0 && (|a| == 0 || a[0] < b[0] || (a[0] == b[0] && Less(a[1..], b[1..])))
  }

  lemma {:induction false} LessIrreflexive(a: string)
    ensures !Less(a, a)
  {
    if |a| > 0 {
      LessIrreflexive(a[1..]);
    }
  }

  lemma {:induction false} LessTransitive(a: string, b: string, c: string)
    requires Less(a, b) && Less(b, c)
    ensures Less(a, c)
  {
    if |a| > 0 && a[0] == b[0] && b[0] == c[0] {
      LessTransitive(a[1..], b[1..], c[1..]);
    }
  }

  lemma {:induction false} LessTotal(a: string, b: string)
    requires a != b
    ensures Less(a, b) || Less(b, a)
  {
    if |a| > 0 && |b| > 0 && a[0] == b[0] {
      assert a == [a[0]] + a[1..] && b == [b[0]] + b[1..];
      LessTotal(a[1..], b[1..]);
    }
  }

  /** Strictly ascending: sorted, and no date twice. */
  predicate Ascending(s: seq<string>) {
    forall i, j :: 0 <= i < j < |s| ==> Less(s[i], s[j])
  }

  /** Every non-empty finite set of strings has a least element. */
  lemma {:induction false} MinimumExists(keys: set<string>)
    requires keys != {}
    ensures exists m :: m in keys && forall y :: y in keys && y != m ==> Less(m, y)
    decreases |keys|
  {
    var x :| x in keys;
    var rest := keys - {x};
    if rest != {} {
      MinimumExists(rest);
      var m :| m in rest && forall y :: y in rest && y != m ==> Less(m, y);
      LessTotal(x, m);
      if Less(x, m) {
        forall y | y in keys && y != x ensures Less(x, y) {
          if y != m { LessTransitive(x, m, y); }
        }
      } else {
        forall y | y in keys && y != m ensures Less(m, y) {
        }
      }
    }
  }

  /** The keys of a schedule listed in ascending order, each once. */
  ghost function SortedKeys(keys: set<string>): (r: seq<string>)
    ensures |r| == |keys|
    ensures forall d :: d in r <==> d in keys
    ensures Ascending(r)
    decreases |keys|
  {
    if keys == {} then []
    else
      MinimumExists(keys);
      var m :| m in keys && forall y :: y in keys && y != m ==> Less(m, y);
      var rest := SortedKeys(keys - {m});
      PrependMinimum(m, keys, rest);
      [m] + rest
  }

  /** Putting the least key in front of the ascending list of the others lists all keys in ascending order. */
  lemma PrependMinimum(m: string, keys: set<string>, rest: seq<string>)
    requires m in keys && forall y :: y in keys && y != m ==> Less(m, y)
    requires |rest| == |keys - {m}| && Ascending(rest) && forall d :: d in rest <==> d in keys - {m}
    ensures |[m] + rest| == |keys| && Ascending([m] + rest)
    ensures forall d :: d in [m] + rest <==> d in keys
  {
    var r := [m] + rest;
    forall i, j | 0 <= i < j < |r| ensures Less(r[i], r[j]) {
      if i == 0 {
        assert r[j] == rest[j - 1] && r[j] in rest;
      } else {
        assert r[i] == rest[i - 1] && r[j] == rest[j - 1];
      }
    }
  }

  /**
   * `sortedDates`: no dates without a schedule; otherwise the schedule's dates, each
   * exactly once, in ascending order.
   */
  ghost function SortedDates(schedule: Option<Schedule>): (r: seq<string>)
    ensures schedule.None? ==> r == []
    ensures schedule.Some? ==> |r| == |schedule.value| && Ascending(r)
                               && forall d :: d in r <==> d in schedule.value
  {
    match schedule
    case None => []
    case Some(m) => SortedKeys(m.Keys)
  }

  /** Two ascending lists of the same dates are the same list: the display order is determined. */
  lemma {:induction false} AscendingUnique(a: seq<string>, b: seq<string>)
    requires Ascending(a) && Ascending(b)
    requires forall d :: d in a <==> d in b
    ensures a == b
    decreases |a|
  {
    assert a != [] ==> a[0] in a;
    assert b != [] ==> b[0] in b;
    if a != [] && b != [] {
      assert a[0] == b[0] by {
        if a[0] != b[0] {
          assert a[0] in a && b[0] in b;
          var i :| 0 <= i < |b| && b[i] == a[0];
          var j :| 0 <= j < |a| && a[j] == b[0];
          LessTransitive(a[0], b[0], a[0]);
          LessIrreflexive(a[0]);
        }
      }
      forall d ensures d in a[1..] <==> d in b[1..] {
        LessIrreflexive(a[0]);
        if d in a[1..] {
          var i :| 0 <= i < |a[1..]| && a[1..][i] == d;
          assert d == a[i + 1] && d in a;
          var k :| 0 <= k < |b| && b[k] == d;
          assert k != 0;
          assert b[1..][k - 1] == d;
        }
        if d in b[1..] {
          var i :| 0 <= i < |b[1..]| && b[1..][i] == d;
          assert d == b[i + 1] && d in b;
          var k :| 0 <= k < |a| && a[k] == d;
          assert k != 0;
          assert a[1..][k - 1] == d;
        }
      }
      AscendingUnique(a[1..], b[1..]);
      assert a == [a[0]] + a[1..] && b == [b[0]] + b[1..];
    }
  }

  /** The dates of a three-day schedule come out in calendar order. */
  lemma SortedDatesExample(tasks: seq<Task>)
    ensures SortedDates(Some(map["2024-03-05" := tasks, "2024-01-20" := tasks, "2024-02-10" := tasks]))
         == ["2024-01-20", "2024-02-10", "2024-03-05"]
  {
    var m := map["2024-03-05" := tasks, "2024-01-20" := tasks, "2024-02-10" := tasks];
    var want := ["2024-01-20", "2024-02-10", "2024-03-05"];
    assert Less(want[0], want[1]) && Less(want[1], want[2]);
    LessTransitive(want[0], want[1], want[2]);
    assert Ascending(want);
    AscendingUnique(SortedDates(Some(m)), want);
  }

  /** The unit after a task's hours: `hrs` for more than one hour, `hr` otherwise. */
  function HourUnit(hours: real): (r: string)
    ensures r == "hrs" <==> hours > 1.0
    ensures r == "hr" <==> hours <= 1.0
  {
    if hours > 1.0 then "hrs" else "hr"
  }

  /** One hour is "hr", two are "hrs", and zero hours are "hr" too. */
  lemma HourUnitExamples()
    ensures HourUnit(1.0) == "hr" && HourUnit(2.0) == "hrs" && HourUnit(0.0) == "hr"
  {
  }
}
