// Planning which database exports to keep: one for each of the newest days,
// and one for each of some more weeks.
module RetentionPlan {
  import opened Results
  import Sorting

  const MILLIS_PER_DAY: int := 86_400_000

  // `day` is the date in the file name, as a day number.
  datatype Entry = Entry(file: string, timestampMs: int, day: int, weekKey: string)

  datatype Reason = Daily | Weekly

  // File names carry the date of their own time.
  predicate Dated(entries: seq<Entry>) {
    forall i :: 0 <= i < |entries| ==> entries[i].day == entries[i].timestampMs / MILLIS_PER_DAY
  }

  // ---- the listing ----

  // Newest first, then by file name as the locale orders names.
  type NameOrder = (string, string) -> bool

  function ListedBefore(names: NameOrder): (Entry, Entry) -> bool {
    (a: Entry, b: Entry) => a.timestampMs > b.timestampMs || (a.timestampMs == b.timestampMs && names(a.file, b.file))
  }

  function Listed(names: NameOrder, found: seq<Entry>): seq<Entry> {
    Sorting.Sort(ListedBefore(names), found)
  }

  predicate NewestFirst(entries: seq<Entry>) {
    forall i, j :: 0 <= i < j < |entries| ==> entries[i].timestampMs >= entries[j].timestampMs
  }

  predicate DistinctFiles(entries: seq<Entry>) {
    forall i, j :: 0 <= i < j < |entries| ==> entries[i].file != entries[j].file
  }

  lemma ListedOrder(names: NameOrder)
    requires Sorting.WeakOrder(names)
    ensures Sorting.WeakOrder(ListedBefore(names))
  {
    var before := ListedBefore(names);
    forall x, y, z | !before(y, x) && !before(z, y) ensures !before(z, x) {
      assert !names(y.file, x.file) && !names(z.file, y.file) ==> !names(z.file, x.file);
    }
    forall x, y | before(x, y) ensures !before(y, x) {
      assert names(x.file, y.file) ==> !names(y.file, x.file);
    }
  }

  lemma ListingMeaning(names: NameOrder, found: seq<Entry>)
    requires Sorting.WeakOrder(names)
    ensures multiset(Listed(names, found)) == multiset(found) && NewestFirst(Listed(names, found))
    ensures var entries := Listed(names, found);
            forall i, j :: 0 <= i < j < |entries| && entries[i].timestampMs == entries[j].timestampMs ==>
              !names(entries[j].file, entries[i].file)
  {
    ListedOrder(names);
    Sorting.SortMeaning(ListedBefore(names), found);
    var entries := Listed(names, found);
    forall i, j | 0 <= i < j < |entries|
      ensures entries[i].timestampMs >= entries[j].timestampMs
      ensures entries[i].timestampMs == entries[j].timestampMs ==> !names(entries[j].file, entries[i].file)
    {
      assert !ListedBefore(names)(entries[j], entries[i]);
    }
  }

  // ---- what is kept ----

  // The days of the first n entries.
  function DaysBefore(entries: seq<Entry>, n: nat): set<int>
    requires n <= |entries|
  {
    if n == 0 then {} else DaysBefore(entries, n - 1) + {entries[n - 1].day}
  }

  // The first entry of a day, with fewer than `daily` days before.
  predicate IsDaily(entries: seq<Entry>, daily: nat, i: nat)
    requires i < |entries|
  {
    entries[i].day !in DaysBefore(entries, i) && |DaysBefore(entries, i)| < daily
  }

  // The weeks of the first n entries that are not kept for their day.
  function WeeksBefore(entries: seq<Entry>, daily: nat, n: nat): set<string>
    requires n <= |entries|
  {
    if n == 0 then {}
    else WeeksBefore(entries, daily, n - 1) + if IsDaily(entries, daily, n - 1) then {} else {entries[n - 1].weekKey}
  }

  // The first such entry of a week, with fewer than `weekly` weeks before.
  predicate IsWeekly(entries: seq<Entry>, daily: nat, weekly: nat, i: nat)
    requires i < |entries|
  {
    && !IsDaily(entries, daily, i)
    && entries[i].weekKey !in WeeksBefore(entries, daily, i) && |WeeksBefore(entries, daily, i)| < weekly
  }

  predicate IsKept(entries: seq<Entry>, daily: nat, weekly: nat, i: nat)
    requires i < |entries|
  {
    IsDaily(entries, daily, i) || IsWeekly(entries, daily, weekly, i)
  }

  function Flags(entries: seq<Entry>, daily: nat, weekly: nat): (flags: seq<bool>)
    ensures |flags| == |entries| && forall i :: 0 <= i < |entries| ==> flags[i] == IsKept(entries, daily, weekly, i)
  {
    seq(|entries|, i requires 0 <= i < |entries| => IsKept(entries, daily, weekly, i))
  }

  // The entries among the first n whose flag is `wanted`, in order.
  function Pick(entries: seq<Entry>, flags: seq<bool>, n: nat, wanted: bool): seq<Entry>
    requires n <= |entries| == |flags|
  {
    if n == 0 then []
    else Pick(entries, flags, n - 1, wanted) + if flags[n - 1] == wanted then [entries[n - 1]] else []
  }

  // The kept ones among the first n entries, and the others.
  function KeptOf(entries: seq<Entry>, daily: nat, weekly: nat, n: nat): seq<Entry>
    requires n <= |entries|
  {
    Pick(entries, Flags(entries, daily, weekly), n, true)
  }

  function DeletedOf(entries: seq<Entry>, daily: nat, weekly: nat, n: nat): seq<Entry>
    requires n <= |entries|
  {
    Pick(entries, Flags(entries, daily, weekly), n, false)
  }

  // ---- planning ----

  datatype Plan = Plan(kept: map<string, Reason>, delete: seq<Entry>)

  // The files kept when the weekly selection has seen n entries.
  ghost predicate KeptAt(entries: seq<Entry>, daily: nat, weekly: nat, n: nat, kept: map<string, Reason>) {
    && (forall f :: f in kept ==> exists i :: 0 <= i < |entries| && entries[i].file == f)
    && (forall i :: 0 <= i < |entries| ==>
          && (entries[i].file in kept <==> IsDaily(entries, daily, i) || (i < n && IsWeekly(entries, daily, weekly, i)))
          && (entries[i].file in kept ==> (kept[entries[i].file] == Daily <==> IsDaily(entries, daily, i))))
  }

  ghost predicate IsPlan(plan: Plan, entries: seq<Entry>, daily: nat, weekly: nat) {
    KeptAt(entries, daily, weekly, |entries|, plan.kept) && plan.delete == DeletedOf(entries, daily, weekly, |entries|)
  }

  // The first entries of the days among the first n entries.
  ghost function FirstsOf(entries: seq<Entry>, n: nat): seq<nat>
    requires n <= |entries|
  {
    if n == 0 then []
    else FirstsOf(entries, n - 1) + if entries[n - 1].day in DaysBefore(entries, n - 1) then [] else [n - 1]
  }

  lemma {:induction false} FirstsMeaning(entries: seq<Entry>, n: nat, k: nat)
    requires n <= |entries|
    ensures |FirstsOf(entries, n)| == |DaysBefore(entries, n)|
    ensures k < |FirstsOf(entries, n)| ==>
              var i := FirstsOf(entries, n)[k];
              i < n && entries[i].day !in DaysBefore(entries, i) && |DaysBefore(entries, i)| == k
  {
    if n > 0 {
      var m := n - 1;
      FirstsMeaning(entries, m, k);
      if entries[m].day in DaysBefore(entries, m) {
        assert DaysBefore(entries, n) == DaysBefore(entries, m) && FirstsOf(entries, n) == FirstsOf(entries, m);
      } else {
        assert FirstsOf(entries, n) == FirstsOf(entries, m) + [m];
      }
    }
  }

  lemma {:induction false} IsAmongFirsts(entries: seq<Entry>, n: nat, i: nat)
    requires i < n <= |entries| && entries[i].day !in DaysBefore(entries, i)
    ensures |DaysBefore(entries, i)| < |FirstsOf(entries, n)| && FirstsOf(entries, n)[|DaysBefore(entries, i)|] == i
  {
    FirstsMeaning(entries, n - 1, 0);
    if i < n - 1 {
      IsAmongFirsts(entries, n - 1, i);
    }
  }

  method DailyDates(entries: seq<Entry>) returns (dates: seq<int>)
    ensures |dates| == |FirstsOf(entries, |entries|)|
    ensures forall k :: 0 <= k < |dates| ==>
              FirstsOf(entries, |entries|)[k] < |entries| && dates[k] == entries[FirstsOf(entries, |entries|)[k]].day
  {
    dates := [];
    for n := 0 to |entries|
      invariant |dates| == |FirstsOf(entries, n)|
      invariant forall k :: 0 <= k < |dates| ==>
        FirstsOf(entries, n)[k] < |entries| && dates[k] == entries[FirstsOf(entries, n)[k]].day
      invariant forall d :: d in dates <==> d in DaysBefore(entries, n)
    {
      if entries[n].day !in dates {
        dates := dates + [entries[n].day];
      }
    }
  }

  lemma {:induction false} DayIsSeen(entries: seq<Entry>, n: nat, d: int)
    requires n <= |entries|
    ensures d in DaysBefore(entries, n) <==> exists i :: 0 <= i < n && entries[i].day == d
  {
    if n > 0 {
      DayIsSeen(entries, n - 1, d);
    }
  }

  method FindFirst(entries: seq<Entry>, date: int, ghost first: nat) returns (i: nat)
    requires first < |entries| && entries[first].day == date && date !in DaysBefore(entries, first)
    ensures i == first
  {
    i := 0;
    DayIsSeen(entries, first, date);
    while entries[i].day != date
      invariant i <= first
      decreases first - i
    {
      i := i + 1;
    }
  }

  method KeepDaily(entries: seq<Entry>, daily: nat, dates: seq<int>) returns (kept: map<string, Reason>)
    requires DistinctFiles(entries) && |dates| == |FirstsOf(entries, |entries|)|
    requires forall k :: 0 <= k < |dates| ==>
               FirstsOf(entries, |entries|)[k] < |entries| && dates[k] == entries[FirstsOf(entries, |entries|)[k]].day
    ensures KeptAt(entries, daily, 0, 0, kept)
  {
    kept := map[];
    ghost var firsts := FirstsOf(entries, |entries|);
    var count := if |dates| < daily then |dates| else daily;
    for k := 0 to count
      invariant forall f :: f in kept <==> exists h :: 0 <= h < k && entries[firsts[h]].file == f
      invariant forall f :: f in kept ==> kept[f] == Daily
    {
      FirstsMeaning(entries, |entries|, k);
      var i := FindFirst(entries, dates[k], firsts[k]);
      kept := kept[entries[i].file := Daily];
    }
    forall i | 0 <= i < |entries| ensures entries[i].file in kept <==> IsDaily(entries, daily, i) {
      FirstsAreDaily(entries, daily, i, count);
    }
  }

  lemma FirstsAreDaily(entries: seq<Entry>, daily: nat, i: nat, count: nat)
    requires DistinctFiles(entries) && i < |entries|
    requires count == if |FirstsOf(entries, |entries|)| < daily then |FirstsOf(entries, |entries|)| else daily
    ensures forall h :: 0 <= h < count ==> FirstsOf(entries, |entries|)[h] < |entries|
    ensures IsDaily(entries, daily, i) <==>
            exists h :: 0 <= h < count && entries[FirstsOf(entries, |entries|)[h]].file == entries[i].file
  {
    var firsts := FirstsOf(entries, |entries|);
    forall h | 0 <= h < count ensures firsts[h] < |entries| && IsDaily(entries, daily, firsts[h]) {
      FirstsMeaning(entries, |entries|, h);
    }
    if IsDaily(entries, daily, i) {
      IsAmongFirsts(entries, |entries|, i);
      assert entries[firsts[|DaysBefore(entries, i)|]].file == entries[i].file;
    }
  }

  lemma {:induction false} WeeksGrow(entries: seq<Entry>, daily: nat, i: nat, j: nat)
    requires i <= j <= |entries|
    ensures |WeeksBefore(entries, daily, i)| <= |WeeksBefore(entries, daily, j)|
    decreases j
  {
    if i < j {
      WeeksGrow(entries, daily, i, j - 1);
      SubsetIsSmaller(WeeksBefore(entries, daily, j - 1), WeeksBefore(entries, daily, j));
    }
  }

  lemma {:induction false} SubsetIsSmaller<T>(a: set<T>, b: set<T>)
    requires a <= b
    ensures |a| <= |b|
  {
    if a != {} {
      var x :| x in a;
      SubsetIsSmaller(a - {x}, b - {x});
    }
  }

  lemma KeptOneMore(
      entries: seq<Entry>, daily: nat, weekly: nat, n: nat, kept: map<string, Reason>, kept': map<string, Reason>)
    requires DistinctFiles(entries) && n < |entries| && KeptAt(entries, daily, weekly, n, kept)
    requires kept' == if IsWeekly(entries, daily, weekly, n) then kept[entries[n].file := Weekly] else kept
    ensures KeptAt(entries, daily, weekly, n + 1, kept')
  {
    forall i | 0 <= i < |entries| && i != n ensures entries[i].file != entries[n].file {
    }
  }

  // The body of the loop over the entries.
  method KeepForWeek(
      entries: seq<Entry>, ghost daily: nat, ghost weekly: nat, n: nat, before: map<string, Reason>, seen: set<string>)
      returns (kept: map<string, Reason>, weeks: set<string>)
    requires DistinctFiles(entries) && n < |entries| && KeptAt(entries, daily, weekly, n, before)
    requires seen == WeeksBefore(entries, daily, n) && |seen| < weekly
    ensures KeptAt(entries, daily, weekly, n + 1, kept) && weeks == WeeksBefore(entries, daily, n + 1)
  {
    kept, weeks := before, seen;
    assert entries[n].file in before <==> IsDaily(entries, daily, n);
    if !(entries[n].file in before || entries[n].weekKey in seen) {
      weeks := seen + {entries[n].weekKey};
      kept := before[entries[n].file := Weekly];
    }
    KeptOneMore(entries, daily, weekly, n, before, kept);
  }

  method KeepWeekly(entries: seq<Entry>, ghost daily: nat, weekly: nat, keptDaily: map<string, Reason>)
      returns (kept: map<string, Reason>)
    requires DistinctFiles(entries) && weekly >= 1
    requires KeptAt(entries, daily, weekly, 0, keptDaily)
    ensures KeptAt(entries, daily, weekly, |entries|, kept)
  {
    kept := keptDaily;
    var weeks: set<string> := {};
    var n := 0;
    while n < |entries| && |weeks| < weekly
      invariant n <= |entries| && weeks == WeeksBefore(entries, daily, n)
      invariant KeptAt(entries, daily, weekly, n, kept)
      decreases |entries| - n
    {
      kept, weeks := KeepForWeek(entries, daily, weekly, n, kept, weeks);
      n := n + 1;
    }
    NoMoreWeeks(entries, daily, weekly, n, kept);
  }

  lemma NotWeekly(entries: seq<Entry>, daily: nat, weekly: nat, n: nat, i: nat)
    requires n <= i < |entries| && |WeeksBefore(entries, daily, n)| >= weekly
    ensures !IsWeekly(entries, daily, weekly, i)
  {
    WeeksGrow(entries, daily, n, i);
  }

  lemma NoMoreWeeks(entries: seq<Entry>, daily: nat, weekly: nat, n: nat, kept: map<string, Reason>)
    requires n <= |entries| && KeptAt(entries, daily, weekly, n, kept)
    requires n == |entries| || |WeeksBefore(entries, daily, n)| >= weekly
    ensures KeptAt(entries, daily, weekly, |entries|, kept)
  {
    forall i | n <= i < |entries| ensures !IsWeekly(entries, daily, weekly, i) {
      NotWeekly(entries, daily, weekly, n, i);
    }
  }

  lemma DeletedOfOneMore(entries: seq<Entry>, daily: nat, weekly: nat, n: nat, kept: map<string, Reason>)
    requires n < |entries| && KeptAt(entries, daily, weekly, |entries|, kept)
    ensures DeletedOf(entries, daily, weekly, n + 1)
         == DeletedOf(entries, daily, weekly, n) + if entries[n].file in kept then [] else [entries[n]]
  {
    assert entries[n].file in kept <==> IsKept(entries, daily, weekly, n);
  }

  method DeleteList(entries: seq<Entry>, ghost daily: nat, ghost weekly: nat, kept: map<string, Reason>)
      returns (delete: seq<Entry>)
    requires KeptAt(entries, daily, weekly, |entries|, kept)
    ensures delete == DeletedOf(entries, daily, weekly, |entries|)
  {
    delete := [];
    for n := 0 to |entries|
      invariant delete == DeletedOf(entries, daily, weekly, n)
    {
      DeletedOfOneMore(entries, daily, weekly, n, kept);
      if entries[n].file !in kept {
        delete := delete + [entries[n]];
      }
    }
  }

  // Plans exactly this selection; bad limits are refused.
  method PlanRetention(entries: seq<Entry>, daily: int, weekly: int) returns (r: Result<Plan, string>)
    requires DistinctFiles(entries)
    ensures r.Ok? <==> daily >= 1 && weekly >= 1
    ensures r.Ok? ==> IsPlan(r.value, entries, daily, weekly)
  {
    if daily < 1 || weekly < 1 {
      return Err("daily and weekly must be integers of at least 1");
    }
    var dates := DailyDates(entries);
    var kept := KeepDaily(entries, daily, dates);
    kept := KeepWeekly(entries, daily, weekly, kept);
    var delete := DeleteList(entries, daily, weekly, kept);
    r := Ok(Plan(kept, delete));
  }

  // ---- what a plan means ----

  lemma {:induction false} PickMeaning(entries: seq<Entry>, flags: seq<bool>, n: nat, wanted: bool, x: Entry)
    requires n <= |entries| == |flags|
    ensures x in Pick(entries, flags, n, wanted) <==> exists i :: 0 <= i < n && entries[i] == x && flags[i] == wanted
  {
    if n > 0 {
      PickMeaning(entries, flags, n - 1, wanted, x);
    }
  }

  lemma {:induction false} PickLengths(entries: seq<Entry>, flags: seq<bool>, n: nat)
    requires n <= |entries| == |flags|
    ensures |Pick(entries, flags, n, true)| + |Pick(entries, flags, n, false)| == n
  {
    if n > 0 {
      PickLengths(entries, flags, n - 1);
    }
  }

  lemma OnItsSide(entries: seq<Entry>, flags: seq<bool>, i: nat)
    requires DistinctFiles(entries) && |flags| == |entries| && i < |entries|
    ensures entries[i] in Pick(entries, flags, |entries|, flags[i])
    ensures entries[i] !in Pick(entries, flags, |entries|, !flags[i])
  {
    PickMeaning(entries, flags, |entries|, flags[i], entries[i]);
    PickMeaning(entries, flags, |entries|, !flags[i], entries[i]);
  }

  lemma PickSides(entries: seq<Entry>, flags: seq<bool>, e: Entry)
    requires DistinctFiles(entries) && |flags| == |entries|
    ensures e in entries <==> e in Pick(entries, flags, |entries|, true) || e in Pick(entries, flags, |entries|, false)
    ensures e in Pick(entries, flags, |entries|, true) ==> e !in Pick(entries, flags, |entries|, false)
  {
    if e in entries {
      var i :| 0 <= i < |entries| && entries[i] == e;
      OnItsSide(entries, flags, i);
    } else {
      PickMeaning(entries, flags, |entries|, true, e);
      PickMeaning(entries, flags, |entries|, false, e);
    }
  }

  lemma PickPartition(entries: seq<Entry>, flags: seq<bool>)
    requires DistinctFiles(entries) && |flags| == |entries|
    ensures forall e :: e in entries <==>
              e in Pick(entries, flags, |entries|, true) || e in Pick(entries, flags, |entries|, false)
    ensures forall e :: e in Pick(entries, flags, |entries|, true) ==> e !in Pick(entries, flags, |entries|, false)
  {
    forall e
      ensures e in entries <==>
              e in Pick(entries, flags, |entries|, true) || e in Pick(entries, flags, |entries|, false)
      ensures e in Pick(entries, flags, |entries|, true) ==> e !in Pick(entries, flags, |entries|, false)
    {
      PickSides(entries, flags, e);
    }
  }

  // Every entry is kept or deleted, and none both.
  lemma Partition(entries: seq<Entry>, daily: nat, weekly: nat)
    requires DistinctFiles(entries)
    ensures var kept := KeptOf(entries, daily, weekly, |entries|);
            var deleted := DeletedOf(entries, daily, weekly, |entries|);
            && |kept| + |deleted| == |entries|
            && (forall e :: e in entries <==> e in kept || e in deleted)
            && (forall e :: e in kept ==> e !in deleted)
  {
    PickLengths(entries, Flags(entries, daily, weekly), |entries|);
    PickPartition(entries, Flags(entries, daily, weekly));
  }

  // The days and weeks seen bound what is kept.
  lemma {:induction false} KeptCount(entries: seq<Entry>, daily: nat, weekly: nat, n: nat)
    requires n <= |entries|
    ensures |KeptOf(entries, daily, weekly, n)| <=
              (if |DaysBefore(entries, n)| < daily then |DaysBefore(entries, n)| else daily)
              + (if |WeeksBefore(entries, daily, n)| < weekly then |WeeksBefore(entries, daily, n)| else weekly)
  {
    if n > 0 {
      KeptCount(entries, daily, weekly, n - 1);
      SubsetIsSmaller(DaysBefore(entries, n - 1), DaysBefore(entries, n));
      SubsetIsSmaller(WeeksBefore(entries, daily, n - 1), WeeksBefore(entries, daily, n));
    }
  }

  lemma KeepsAtMost(entries: seq<Entry>, daily: nat, weekly: nat)
    ensures |KeptOf(entries, daily, weekly, |entries|)| <= daily + weekly
  {
    KeptCount(entries, daily, weekly, |entries|);
  }

  lemma NewestIsKept(entries: seq<Entry>, daily: nat, weekly: nat)
    requires entries != [] && daily >= 1
    ensures IsDaily(entries, daily, 0)
  {
  }

  // Newest first, days do not come back: the entries before the first of a
  // day are of later days.
  lemma DaysDescend(entries: seq<Entry>, i: nat, j: nat)
    requires NewestFirst(entries) && Dated(entries) && i < j < |entries|
    ensures entries[i].day >= entries[j].day
  {
    SameScale(entries[i].timestampMs, entries[j].timestampMs);
  }

  lemma SameScale(a: int, b: int)
    requires a >= b
    ensures a / MILLIS_PER_DAY >= b / MILLIS_PER_DAY
  {
  }

  // Days seen before are later days.
  lemma DaysBeforeAreLater(entries: seq<Entry>, i: nat, d: int)
    requires NewestFirst(entries) && Dated(entries) && i < |entries| && d in DaysBefore(entries, i)
    ensures d >= entries[i].day
  {
    DayIsSeen(entries, i, d);
    var j :| 0 <= j < i && entries[j].day == d;
    DaysDescend(entries, j, i);
  }

  // An entry kept for its day is the newest of that day.
  lemma DailyIsNewest(entries: seq<Entry>, daily: nat, i: nat, j: nat)
    requires NewestFirst(entries) && i < |entries| && j < |entries|
    requires IsDaily(entries, daily, i) && entries[j].day == entries[i].day
    ensures j >= i && entries[j].timestampMs <= entries[i].timestampMs
  {
    DayIsSeen(entries, i, entries[i].day);
  }

  // The newest entry of a day is kept, unless `daily` days come before it.
  lemma NewestOfDay(entries: seq<Entry>, daily: nat, i: nat)
    requires i < |entries| && forall j :: 0 <= j < i ==> entries[j].day != entries[i].day
    ensures IsDaily(entries, daily, i) <==> |DaysBefore(entries, i)| < daily
  {
    DayIsSeen(entries, i, entries[i].day);
  }

  predicate IsWeeklyCandidate(entries: seq<Entry>, daily: nat, i: int, w: string) {
    0 <= i < |entries| && !IsDaily(entries, daily, i) && entries[i].weekKey == w
  }

  lemma WeeksOneMore(entries: seq<Entry>, daily: nat, n: nat, w: string)
    requires n < |entries|
    ensures w in WeeksBefore(entries, daily, n + 1) <==>
            w in WeeksBefore(entries, daily, n) || IsWeeklyCandidate(entries, daily, n, w)
  {
  }

  lemma {:induction false} WeekIsSeen(entries: seq<Entry>, daily: nat, n: nat, w: string)
    requires n <= |entries|
    ensures w in WeeksBefore(entries, daily, n) <==> exists i :: i < n && IsWeeklyCandidate(entries, daily, i, w)
  {
    if n > 0 {
      WeekIsSeen(entries, daily, n - 1, w);
      WeeksOneMore(entries, daily, n - 1, w);
    }
  }

  // One for each of the remaining weeks: of the entries not kept for their
  // day, the first of a week is kept, unless `weekly` weeks come before it.
  lemma WeeklyMeaning(entries: seq<Entry>, daily: nat, weekly: nat, i: nat)
    requires i < |entries| && !IsDaily(entries, daily, i)
    ensures IsWeekly(entries, daily, weekly, i) <==>
            && |WeeksBefore(entries, daily, i)| < weekly
            && forall j :: 0 <= j < i && !IsDaily(entries, daily, j) ==> entries[j].weekKey != entries[i].weekKey
  {
    WeekIsSeen(entries, daily, i, entries[i].weekKey);
    forall j | 0 <= j < i
      ensures IsWeeklyCandidate(entries, daily, j, entries[i].weekKey) <==>
              !IsDaily(entries, daily, j) && entries[j].weekKey == entries[i].weekKey
    {
    }
  }

  // ---- planning again ----

  // The plan of the first p kept entries, compared with the plan of the first n
  // of all: no more days and weeks have been seen, and all of them are kept.
  ghost predicate Again(entries: seq<Entry>, kept: seq<Entry>, daily: nat, weekly: nat, n: nat, p: nat)
    requires n <= |entries| && p <= |kept|
  {
    && DaysBefore(kept, p) <= DaysBefore(entries, n)
    && WeeksBefore(kept, daily, p) <= WeeksBefore(entries, daily, n)
    && forall q :: 0 <= q < p ==> IsKept(kept, daily, weekly, q)
  }

  lemma KeptOfOneMore(entries: seq<Entry>, daily: nat, weekly: nat, n: nat)
    requires n < |entries|
    ensures KeptOf(entries, daily, weekly, n + 1)
         == KeptOf(entries, daily, weekly, n) + if IsKept(entries, daily, weekly, n) then [entries[n]] else []
  {
  }

  lemma PrefixMember(part: seq<Entry>, x: Entry, kept: seq<Entry>)
    requires part + [x] <= kept
    ensures part <= kept && |part| < |kept| && kept[|part|] == x
  {
    assert (part + [x])[|part|] == x;
    assert kept[..|part|] == (part + [x])[..|part|] == part;
  }

  lemma {:induction false} AgainHolds(entries: seq<Entry>, kept: seq<Entry>, daily: nat, weekly: nat, n: nat)
      returns (p: nat)
    requires n <= |entries| && KeptOf(entries, daily, weekly, n) <= kept
    ensures p == |KeptOf(entries, daily, weekly, n)| && Again(entries, kept, daily, weekly, n, p)
  {
    p := 0;
    if n > 0 {
      var m := n - 1;
      KeptOfOneMore(entries, daily, weekly, m);
      if IsKept(entries, daily, weekly, m) {
        PrefixMember(KeptOf(entries, daily, weekly, m), entries[m], kept);
        p := AgainHolds(entries, kept, daily, weekly, m);
        AgainOneMore(entries, kept, daily, weekly, m, p);
        p := p + 1;
      } else {
        assert KeptOf(entries, daily, weekly, n) == KeptOf(entries, daily, weekly, m);
        p := AgainHolds(entries, kept, daily, weekly, m);
        AgainSkips(entries, kept, daily, weekly, m, p);
      }
    }
  }

  lemma AgainSkips(entries: seq<Entry>, kept: seq<Entry>, daily: nat, weekly: nat, n: nat, p: nat)
    requires n < |entries| && p <= |kept| && Again(entries, kept, daily, weekly, n, p)
    ensures Again(entries, kept, daily, weekly, n + 1, p)
  {
  }

  lemma AgainOneMore(entries: seq<Entry>, kept: seq<Entry>, daily: nat, weekly: nat, n: nat, p: nat)
    requires n < |entries| && p < |kept| && kept[p] == entries[n] && IsKept(entries, daily, weekly, n)
    requires Again(entries, kept, daily, weekly, n, p)
    ensures Again(entries, kept, daily, weekly, n + 1, p + 1)
  {
    StillKept(entries, kept, daily, weekly, n, p);
  }

  // A kept entry is kept again, and adds nothing that was not seen.
  lemma StillKept(entries: seq<Entry>, kept: seq<Entry>, daily: nat, weekly: nat, n: nat, p: nat)
    requires n < |entries| && IsKept(entries, daily, weekly, n) && p < |kept| && kept[p] == entries[n]
    requires DaysBefore(kept, p) <= DaysBefore(entries, n)
    requires WeeksBefore(kept, daily, p) <= WeeksBefore(entries, daily, n)
    ensures IsKept(kept, daily, weekly, p)
    ensures DaysBefore(kept, p + 1) <= DaysBefore(entries, n + 1)
    ensures WeeksBefore(kept, daily, p + 1) <= WeeksBefore(entries, daily, n + 1)
  {
    SubsetIsSmaller(DaysBefore(kept, p), DaysBefore(entries, n));
    SubsetIsSmaller(WeeksBefore(kept, daily, p), WeeksBefore(entries, daily, n));
    if IsDaily(entries, daily, n) {
      assert IsDaily(kept, daily, p);
    }
  }

  // Planning again on what was kept deletes nothing.
  lemma PlanningAgain(entries: seq<Entry>, daily: nat, weekly: nat)
    ensures var kept := KeptOf(entries, daily, weekly, |entries|);
            DeletedOf(kept, daily, weekly, |kept|) == [] && KeptOf(kept, daily, weekly, |kept|) == kept
  {
    var kept := KeptOf(entries, daily, weekly, |entries|);
    var p := AgainHolds(entries, kept, daily, weekly, |entries|);
    AllKept(kept, daily, weekly, |kept|);
    assert kept[..|kept|] == kept;
  }

  lemma {:induction false} AllKept(entries: seq<Entry>, daily: nat, weekly: nat, n: nat)
    requires n <= |entries| && forall q :: 0 <= q < n ==> IsKept(entries, daily, weekly, q)
    ensures DeletedOf(entries, daily, weekly, n) == [] && KeptOf(entries, daily, weekly, n) == entries[..n]
  {
    if n > 0 {
      AllKept(entries, daily, weekly, n - 1);
    }
  }

  // ---- applying a plan ----

  // What identifies a file: a regular file with its inode, size and time.
  datatype Stat = Stat(regular: bool, inode: nat, size: nat, modified: int)

  function Files(entries: seq<Entry>): set<string> {
    set e | e in entries :: e.file
  }

  class ExportDirectory {
    var inode: nat
    var files: map<string, Stat>
    // What the file system does not let anyone remove.
    const locked: set<string>

    constructor (inode: nat, files: map<string, Stat>, locked: set<string>)
      ensures this.inode == inode && this.files == files && this.locked == locked
    {
      this.inode := inode;
      this.files := files;
      this.locked := locked;
    }

    // Whether everything to delete is still what it was when it was planned.
    predicate Unchanged(directory: nat, recorded: map<string, Stat>, delete: seq<Entry>)
      reads this
    {
      && inode == directory
      && forall e :: e in delete ==>
           e.file in files && e.file in recorded && files[e.file] == recorded[e.file] && files[e.file].regular
    }

    // Checks everything to delete against the record, and changes nothing.
    method AssertRetentionPlanUnchanged(directory: nat, recorded: map<string, Stat>, delete: seq<Entry>)
        returns (r: Result<(), string>)
      ensures r.Ok? <==> Unchanged(directory, recorded, delete)
    {
      if inode != directory {
        return Err("the retention directory changed after planning");
      }
      for i := 0 to |delete|
        invariant forall e :: e in delete[..i] ==>
          e.file in files && e.file in recorded && files[e.file] == recorded[e.file] && files[e.file].regular
      {
        var e := delete[i];
        assert e in delete && delete[..i + 1] == delete[..i] + [e];
        if e.file !in files || e.file !in recorded || files[e.file] != recorded[e.file] || !files[e.file].regular {
          return Err("a retention entry changed after planning");
        }
      }
      assert delete[..|delete|] == delete;
      r := Ok(());
    }

    // A change since the plan stops it before anything is gone. Otherwise the
    // files go in order, up to the first that cannot be removed: exactly the
    // `removed` first ones are gone, all of them on success.
    method ApplyRetentionPlan(directory: nat, recorded: map<string, Stat>, delete: seq<Entry>)
        returns (r: Result<(), string>, ghost removed: nat)
      requires DistinctFiles(delete)
      modifies this`files
      ensures r.Ok? <==> old(Unchanged(directory, recorded, delete)) && Files(delete) !! locked
      ensures removed <= |delete| && files == old(files) - Files(delete[..removed])
      ensures r.Ok? ==> removed == |delete|
      ensures !old(Unchanged(directory, recorded, delete)) ==> removed == 0
      ensures r.Err? && old(Unchanged(directory, recorded, delete)) ==>
        removed < |delete| && delete[removed].file in locked && Files(delete[..removed]) !! locked
    {
      removed := 0;
      r := AssertRetentionPlanUnchanged(directory, recorded, delete);
      if r.Err? {
        return;
      }
      for i := 0 to |delete|
        invariant removed == i && files == old(files) - Files(delete[..i]) && Files(delete[..i]) !! locked
      {
        if delete[i].file in locked {
          assert delete[i].file in Files(delete);
          return Err("a retention entry could not be removed"), i;
        }
        assert delete[..i + 1] == delete[..i] + [delete[i]];
        assert Files(delete[..i + 1]) == Files(delete[..i]) + {delete[i].file};
        files := files - {delete[i].file};
        removed := i + 1;
      }
      assert delete[..|delete|] == delete;
      r := Ok(());
    }
  }
}
