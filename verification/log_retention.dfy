// Pruning the diagnostic logs by age and by total size.
module LogRetention {
  import opened Results
  import Sorting

  const LOG_FILE_MAX_BYTES: nat := 16_384
  const LOG_TOTAL_MAX_BYTES: nat := 20_971_520
  const LOG_MAX_AGE_MILLIS: nat := 1_209_600_000 // 14 days

  type Name = string

  // A directory entry: a log with the time in its name, or anything else.
  datatype Entry = Log(millis: nat, size: nat) | Unsafe

  type Directory = map<Name, Entry>

  datatype LogFile = LogFile(name: Name, millis: nat, size: nat)

  datatype PruneError = UnsafeLogEntry | LogFileTooLarge | LogPruneFailed

  function Cutoff(now: nat): nat {
    if now < LOG_MAX_AGE_MILLIS then 0 else now - LOG_MAX_AGE_MILLIS
  }

  predicate Acceptable(entry: Entry) {
    entry.Log? && entry.size <= LOG_FILE_MAX_BYTES
  }

  predicate OnDisk(files: Directory, f: LogFile) {
    f.name in files && files[f.name] == Log(f.millis, f.size)
  }

  function Total(list: seq<LogFile>): nat {
    if list == [] then 0 else list[0].size + Total(list[1..])
  }

  lemma {:induction false} TotalMeaning(list: seq<LogFile>, f: LogFile)
    ensures Total([]) == 0 && Total(list + [f]) == Total(list) + f.size
  {
    if list == [] {
      assert [] + [f] == [f] && [f][1..] == [];
    } else {
      TotalMeaning(list[1..], f);
      assert (list + [f])[1..] == list[1..] + [f];
    }
  }

  // The directory without the logs that are not in the list.
  function Keep(files: Directory, list: seq<LogFile>): Directory {
    map n | n in files && files[n].Log? && LogFile(n, files[n].millis, files[n].size) in list :: files[n]
  }

  // ---- what pruning means ----

  predicate OldestFirst(list: seq<LogFile>) {
    forall i, j :: 0 <= i < j < |list| ==> list[i].millis <= list[j].millis
  }

  // The unexpired logs, oldest first (logs of the same time in any order).
  ghost predicate IsOrder(files: Directory, cutoff: nat, order: seq<LogFile>) {
    && Sorting.Distinct(order) && OldestFirst(order)
    && forall f :: f in order <==> OnDisk(files, f) && f.millis >= cutoff
  }

  // The shortest prefix to delete so that the rest fits.
  predicate IsCut(order: seq<LogFile>, k: int) {
    && 0 <= k <= |order| && Total(order[k..]) <= LOG_TOTAL_MAX_BYTES
    && (k > 0 ==> Total(order[k - 1..]) > LOG_TOTAL_MAX_BYTES)
  }

  ghost predicate PrunedBy(before: Directory, after: Directory, cutoff: nat, order: seq<LogFile>, k: int) {
    IsOrder(before, cutoff, order) && IsCut(order, k) && after == Keep(before, order[k..])
  }

  function Names(list: seq<LogFile>): set<Name> {
    set f | f in list :: f.name
  }

  // The first k of the list are gone, and the next one is locked.
  predicate StopsAt(list: seq<LogFile>, k: int, locked: set<Name>) {
    0 <= k < |list| && list[k].name in locked && forall j :: 0 <= j < k ==> list[j].name !in locked
  }

  // ---- the same in terms of the time, the age of 14 days and the cap of 20 MiB ----

  predicate AtMostTwoWeeksOld(millis: nat, now: nat) {
    millis + 14 * 24 * 60 * 60 * 1000 >= now
  }

  // What is left at a time: of the logs of the last two weeks, oldest first,
  // the first k are gone, and so is everything else; k is the least number
  // after which the rest fits.
  ghost predicate LeftAt(before: Directory, after: Directory, now: nat, order: seq<LogFile>, k: int) {
    && Sorting.Distinct(order) && OldestFirst(order)
    && (forall f :: f in order <==> OnDisk(before, f) && AtMostTwoWeeksOld(f.millis, now))
    && 0 <= k <= |order| && Total(order[k..]) <= 20 * 1024 * 1024
    && (k > 0 ==> Total(order[k - 1..]) > 20 * 1024 * 1024)
    && (forall n :: n in after ==> n in before && after[n] == before[n] && after[n].Log?)
    && (forall f :: OnDisk(after, f) <==> f in order[k..])
  }

  lemma CutoffMeaning(millis: nat, now: nat)
    ensures millis < Cutoff(now) <==> !AtMostTwoWeeksOld(millis, now)
  {
  }

  // A removal failed among the older logs (taken in any order).
  ghost predicate StoppedExpired(before: Directory, after: Directory, now: nat, locked: set<Name>) {
    exists expired, k ::
      && Sorting.Distinct(expired)
      && (forall f :: f in expired <==> OnDisk(before, f) && !AtMostTwoWeeksOld(f.millis, now))
      && StopsAt(expired, k, locked) && after == before - Names(expired[..k])
  }

  // The older logs are gone, and a removal failed among the oldest others.
  ghost predicate StoppedOldest(before: Directory, after: Directory, now: nat, locked: set<Name>) {
    exists order, k ::
      && Sorting.Distinct(order) && OldestFirst(order)
      && (forall f :: f in order <==> OnDisk(before, f) && AtMostTwoWeeksOld(f.millis, now))
      && StopsAt(order, k, locked) && Total(order[k..]) > 20 * 1024 * 1024 && after == Keep(before, order[k..])
  }

  lemma OrderAt(files: Directory, now: nat, order: seq<LogFile>)
    ensures IsOrder(files, Cutoff(now), order) <==>
              && Sorting.Distinct(order) && OldestFirst(order)
              && (forall f :: f in order <==> OnDisk(files, f) && AtMostTwoWeeksOld(f.millis, now))
  {
    forall f: LogFile ensures f.millis < Cutoff(now) <==> !AtMostTwoWeeksOld(f.millis, now) {
      CutoffMeaning(f.millis, now);
    }
  }

  lemma LeftIsPruned(before: Directory, after: Directory, now: nat, order: seq<LogFile>, k: int)
    requires LeftAt(before, after, now, order, k)
    ensures PrunedBy(before, after, Cutoff(now), order, k)
  {
    OrderAt(before, now, order);
    KeptIsKeep(before, after, order[k..]);
  }

  lemma PrunedIsLeft(before: Directory, after: Directory, now: nat, order: seq<LogFile>, k: int)
    requires PrunedBy(before, after, Cutoff(now), order, k)
    ensures LeftAt(before, after, now, order, k)
  {
    OrderAt(before, now, order);
    KeptLogs(before, after, Cutoff(now), order, k);
  }

  // ---- totals ----

  function Without(list: seq<LogFile>, i: nat): seq<LogFile>
    requires i < |list|
  {
    list[..i] + list[i + 1..]
  }

  lemma {:induction false} TotalSplit(list: seq<LogFile>, i: nat)
    requires i < |list|
    ensures Total(list) == list[i].size + Total(Without(list, i))
  {
    if i == 0 {
      assert Without(list, 0) == list[1..];
    } else {
      TotalSplit(list[1..], i - 1);
      assert Without(list, i)[1..] == Without(list[1..], i - 1);
    }
  }

  lemma WithoutOne(list: seq<LogFile>, i: nat)
    requires i < |list| && Sorting.Distinct(list)
    ensures Sorting.Distinct(Without(list, i))
    ensures forall f :: f in Without(list, i) <==> f in list && f != list[i]
  {
    forall f | f in list && f != list[i] ensures f in Without(list, i) {
      var j :| 0 <= j < |list| && list[j] == f;
      assert Without(list, i)[if j < i then j else j - 1] == f;
    }
  }

  lemma NoLogs(list: seq<LogFile>)
    requires forall f :: f !in list
    ensures list == []
  {
    if list != [] {
      FirstIsIn(list);
    }
  }

  lemma FirstIsIn(list: seq<LogFile>)
    requires list != []
    ensures list[0] in list
  {
  }

  // The total does not depend on the order.
  lemma {:induction false} TotalOfSameLogs(a: seq<LogFile>, b: seq<LogFile>)
    requires Sorting.Distinct(a) && Sorting.Distinct(b) && forall f :: f in a <==> f in b
    ensures Total(a) == Total(b)
  {
    if a == [] {
      NoLogs(b);
    } else {
      assert a[0] in b;
      var i :| 0 <= i < |b| && b[i] == a[0];
      TotalSplit(b, i);
      WithoutOne(a, 0);
      WithoutOne(b, i);
      assert Without(a, 0) == a[1..];
      TotalOfSameLogs(Without(a, 0), Without(b, i));
    }
  }

  // ---- what is left ----

  // The logs that are left.
  lemma KeptLogs(before: Directory, after: Directory, cutoff: nat, order: seq<LogFile>, k: int)
    requires PrunedBy(before, after, cutoff, order, k)
    ensures Sorting.Distinct(order[k..]) && forall f :: f in order[k..] <==> OnDisk(after, f)
    ensures forall n :: n in after ==>
              n in before && after[n] == before[n] && after[n].Log? && after[n].millis >= cutoff
  {
    forall f | f in order[k..] ensures f in order && OnDisk(after, f) {
    }
    forall n | n in after ensures LogFile(n, after[n].millis, after[n].size) in order {
    }
  }

  lemma DeletedIsInPrefix(order: seq<LogFile>, k: int, f: LogFile)
    requires 0 <= k <= |order| && f in order && f !in order[k..]
    ensures exists i :: 0 <= i < k && order[i] == f
  {
    assert order == order[..k] + order[k..];
    assert f in order[..k];
  }

  lemma OldestAreDeleted(order: seq<LogFile>, k: int, d: LogFile, f: LogFile)
    requires 0 <= k <= |order| && OldestFirst(order) && d in order && d !in order[k..] && f in order[k..]
    ensures d.millis <= f.millis
  {
    DeletedIsInPrefix(order, k, d);
    var i :| 0 <= i < k && order[i] == d;
    var j :| 0 <= j < |order[k..]| && order[k..][j] == f;
    assert order[k + j] == f;
  }

  // The survivors are at most two weeks old and fit, none is older than a
  // deleted log of that age, and putting the last deletion back would exceed
  // the cap.
  lemma PrunedMeaning(before: Directory, after: Directory, now: nat, order: seq<LogFile>, k: int)
    requires LeftAt(before, after, now, order, k)
    ensures forall n :: n in after ==>
              n in before && after[n] == before[n] && after[n].Log? && AtMostTwoWeeksOld(after[n].millis, now)
    ensures forall d, f :: OnDisk(before, d) && AtMostTwoWeeksOld(d.millis, now) && !OnDisk(after, d) ==>
              (OnDisk(after, f) ==> d.millis <= f.millis)
              && k > 0
    ensures Sorting.Distinct(order[k..]) && (forall f :: f in order[k..] <==> OnDisk(after, f))
    ensures Total(order[k..]) <= 20 * 1024 * 1024
    ensures k > 0 ==> OnDisk(before, order[k - 1]) && Total(order[k..]) + order[k - 1].size > 20 * 1024 * 1024
  {
    forall n | n in after ensures AtMostTwoWeeksOld(after[n].millis, now) {
      var f := LogFile(n, after[n].millis, after[n].size);
      assert OnDisk(after, f);
      assert f in order[k..] && f in order;
    }
    forall d, f | OnDisk(before, d) && AtMostTwoWeeksOld(d.millis, now) && !OnDisk(after, d)
      ensures (OnDisk(after, f) ==> d.millis <= f.millis) && k > 0
    {
      DeletedIsInPrefix(order, k, d);
      if OnDisk(after, f) {
        OldestAreDeleted(order, k, d, f);
      }
    }
    if k > 0 {
      assert order[k - 1..][1..] == order[k..];
      assert order[k - 1] in order;
    }
  }

  // Pruning again at the same time changes nothing.
  lemma PruneIsIdempotent(
      before: Directory, after: Directory, again: Directory, now: nat, order: seq<LogFile>, k: int,
      order': seq<LogFile>, k': int)
    requires LeftAt(before, after, now, order, k) && LeftAt(after, again, now, order', k')
    ensures again == after
  {
    LeftIsPruned(before, after, now, order, k);
    LeftIsPruned(after, again, now, order', k');
    KeptLogs(before, after, Cutoff(now), order, k);
    SecondPrune(after, again, Cutoff(now), order[k..], order', k');
  }

  lemma SecondPrune(after: Directory, again: Directory, cutoff: nat, list: seq<LogFile>, order: seq<LogFile>, k: int)
    requires PrunedBy(after, again, cutoff, order, k)
    requires Sorting.Distinct(list) && Total(list) <= LOG_TOTAL_MAX_BYTES && forall f :: f in list <==> OnDisk(after, f)
    requires forall n :: n in after ==> after[n].Log? && after[n].millis >= cutoff
    ensures again == after
  {
    forall f ensures f in order <==> f in list {
      assert f in order <==> OnDisk(after, f) && f.millis >= cutoff;
    }
    TotalOfSameLogs(order, list);
    if k > 0 {
      TailTotal(order, k - 1);
    }
    assert order[0..] == order;
    forall n | n in after ensures n in again {
      assert OnDisk(after, LogFile(n, after[n].millis, after[n].size));
    }
  }

  lemma {:induction false} TailTotal(list: seq<LogFile>, k: nat)
    requires k <= |list|
    ensures Total(list[k..]) <= Total(list)
  {
    if k == 0 {
      assert list[0..] == list;
    } else {
      TailTotal(list[1..], k - 1);
      assert list[1..][k - 1..] == list[k..];
    }
  }

  // ---- sorting by time ----

  predicate Older(f: LogFile, g: LogFile) {
    f.millis < g.millis
  }

  function SortByMillis(list: seq<LogFile>): seq<LogFile> {
    Sorting.Sort(Older, list)
  }

  // ---- pruning ----

  function Unexpired(list: seq<LogFile>, cutoff: nat): seq<LogFile> {
    if list == [] then []
    else
      var f := list[|list| - 1];
      Unexpired(list[..|list| - 1], cutoff) + if f.millis >= cutoff then [f] else []
  }

  lemma {:induction false} UnexpiredMeaning(list: seq<LogFile>, cutoff: nat)
    requires Sorting.Distinct(list)
    ensures Sorting.Distinct(Unexpired(list, cutoff))
    ensures forall f :: f in Unexpired(list, cutoff) <==> f in list && f.millis >= cutoff
  {
    if list != [] {
      UnexpiredMeaning(list[..|list| - 1], cutoff);
      assert list == list[..|list| - 1] + [list[|list| - 1]];
    }
  }

  function Expired(list: seq<LogFile>, cutoff: nat): seq<LogFile> {
    if list == [] then []
    else
      var f := list[|list| - 1];
      Expired(list[..|list| - 1], cutoff) + if f.millis < cutoff then [f] else []
  }

  lemma {:induction false} ExpiredMeaning(list: seq<LogFile>, cutoff: nat)
    requires Sorting.Distinct(list)
    ensures Sorting.Distinct(Expired(list, cutoff))
    ensures forall f :: f in Expired(list, cutoff) <==> f in list && f.millis < cutoff
  {
    if list != [] {
      ExpiredMeaning(list[..|list| - 1], cutoff);
      assert list == list[..|list| - 1] + [list[|list| - 1]];
    }
  }

  lemma ExpiredAt(list: seq<LogFile>, now: nat)
    requires Sorting.Distinct(list)
    ensures Sorting.Distinct(Expired(list, Cutoff(now)))
    ensures forall f :: f in Expired(list, Cutoff(now)) <==> f in list && !AtMostTwoWeeksOld(f.millis, now)
  {
    ExpiredMeaning(list, Cutoff(now));
    forall f: LogFile ensures f.millis < Cutoff(now) <==> !AtMostTwoWeeksOld(f.millis, now) {
      CutoffMeaning(f.millis, now);
    }
  }

  lemma {:induction false} ExpiredPrefix(list: seq<LogFile>, cutoff: nat, i: nat)
    requires i <= |list|
    ensures Expired(list[..i], cutoff) <= Expired(list, cutoff)
    decreases |list| - i
  {
    if i == |list| {
      assert list[..i] == list;
    } else {
      ExpiredPrefix(list, cutoff, i + 1);
      assert list[..i + 1][..i] == list[..i];
    }
  }

  lemma ExpiredNext(list: seq<LogFile>, cutoff: nat, i: nat)
    requires i < |list|
    ensures Expired(list[..i + 1], cutoff)
         == Expired(list[..i], cutoff) + if list[i].millis < cutoff then [list[i]] else []
    ensures list[i].millis < cutoff ==>
              && |Expired(list[..i], cutoff)| < |Expired(list, cutoff)|
              && Expired(list, cutoff)[|Expired(list[..i], cutoff)|] == list[i]
    ensures Expired(list[..i], cutoff) <= Expired(list, cutoff)
  {
    assert list[..i + 1][..i] == list[..i];
    ExpiredPrefix(list, cutoff, i);
    ExpiredPrefix(list, cutoff, i + 1);
  }

  // The sorted unexpired logs are an order.
  lemma SortedIsOrder(files: Directory, list: seq<LogFile>, cutoff: nat)
    requires Sorting.Distinct(list) && forall f :: f in list <==> OnDisk(files, f)
    ensures IsOrder(files, cutoff, SortByMillis(Unexpired(list, cutoff)))
  {
    var kept := Unexpired(list, cutoff);
    UnexpiredMeaning(list, cutoff);
    SortedLogs(kept);
  }

  lemma SortedLogs(list: seq<LogFile>)
    requires Sorting.Distinct(list)
    ensures var order := SortByMillis(list);
            && Sorting.Distinct(order) && OldestFirst(order) && Total(order) == Total(list)
            && forall f :: f in order <==> f in list
  {
    Sorting.SortMeaning(Older, list);
    Sorting.DistinctPermutation(list, SortByMillis(list));
    Sorting.SameMembers(list, SortByMillis(list));
    TotalOfSameLogs(SortByMillis(list), list);
  }

  class LogDirectory {
    var files: Directory
    // Files the operating system refuses to delete.
    const locked: set<Name>

    constructor (files: Directory, locked: set<Name>)
      ensures this.files == files && this.locked == locked
    {
      this.files := files;
      this.locked := locked;
    }

    method Remove(f: LogFile) returns (r: Result<(), PruneError>)
      requires OnDisk(files, f)
      modifies this`files
      ensures r == if f.name in locked then Err(LogPruneFailed) else Ok(())
      ensures files == if r.Ok? then old(files) - {f.name} else old(files)
    {
      if f.name in locked {
        return Err(LogPruneFailed);
      }
      files := files - {f.name};
      r := Ok(());
    }

    // Reads the directory, in any order.
    method Collect() returns (r: Result<seq<LogFile>, PruneError>)
      ensures r.Ok? <==> forall n :: n in files ==> Acceptable(files[n])
      ensures r.Err? ==>
        || (r.error == UnsafeLogEntry && exists n :: n in files && files[n].Unsafe?)
        || (r.error == LogFileTooLarge && exists n :: n in files && files[n].Log? && files[n].size > 16 * 1024)
      ensures r.Ok? ==> Sorting.Distinct(r.value) && forall f :: f in r.value <==> OnDisk(files, f)
    {
      var list: seq<LogFile> := [];
      var rest := files.Keys;
      while rest != {}
        invariant rest <= files.Keys && Sorting.Distinct(list)
        invariant forall n :: n in files && n !in rest ==> Acceptable(files[n])
        invariant forall f :: f in list <==> OnDisk(files, f) && f.name !in rest
      {
        var n :| n in rest;
        if files[n].Unsafe? {
          return Err(UnsafeLogEntry);
        }
        if files[n].size > LOG_FILE_MAX_BYTES {
          return Err(LogFileTooLarge);
        }
        list := list + [LogFile(n, files[n].millis, files[n].size)];
        rest := rest - {n};
      }
      r := Ok(list);
    }

    method DeleteExpired(list: seq<LogFile>, cutoff: nat) returns (r: Result<(), PruneError>)
      requires Sorting.Distinct(list) && forall f :: f in list <==> OnDisk(files, f)
      modifies this`files
      ensures r.Ok? <==> forall f :: f in Expired(list, cutoff) ==> f.name !in locked
      ensures r.Ok? ==> files == old(files) - Names(Expired(list, cutoff))
      ensures r.Err? ==> r.error == LogPruneFailed && exists k ::
                StopsAt(Expired(list, cutoff), k, locked)
                && files == old(files) - Names(Expired(list, cutoff)[..k])
    {
      ghost var before, expired := files, Expired(list, cutoff);
      for i := 0 to |list|
        invariant files == before - Names(Expired(list[..i], cutoff))
        invariant forall f :: f in Expired(list[..i], cutoff) ==> f.name !in locked
      {
        var f := list[i];
        ExpiredNext(list, cutoff, i);
        if f.millis < cutoff {
          NotYetGone(before, list, cutoff, i);
          r := Remove(f);
          if r.Err? {
            assert StopsAt(expired, |Expired(list[..i], cutoff)|, locked);
            return;
          }
        }
      }
      assert list[..|list|] == list;
      r := Ok(());
    }

    method DeleteOldest(order: seq<LogFile>, sum: nat) returns (r: Result<int, PruneError>)
      requires sum == Total(order) && Sorting.Distinct(order) && forall f :: f in order <==> OnDisk(files, f)
      modifies this`files
      ensures r.Ok? ==> IsCut(order, r.value) && forall j :: 0 <= j < r.value ==> order[j].name !in locked
      ensures r.Ok? ==> forall f :: OnDisk(files, f) <==> f in order[r.value..]
      ensures r.Err? ==> r.error == LogPruneFailed && exists k ::
                && StopsAt(order, k, locked) && Total(order[k..]) > LOG_TOTAL_MAX_BYTES
                && (forall f :: OnDisk(files, f) <==> f in order[k..])
      ensures forall n :: n in files ==> n in old(files) && files[n] == old(files)[n]
      ensures forall n :: n in old(files) && !old(files)[n].Log? ==> n in files
    {
      var total := sum;
      var k := 0;
      assert order[0..] == order;
      while k < |order|
        invariant 0 <= k <= |order| && total == Total(order[k..])
        invariant k > 0 ==> Total(order[k - 1..]) > LOG_TOTAL_MAX_BYTES
        invariant forall j :: 0 <= j < k ==> order[j].name !in locked
        invariant forall f :: OnDisk(files, f) <==> f in order[k..]
        invariant forall n :: n in files ==> n in old(files) && files[n] == old(files)[n]
        invariant forall n :: n in old(files) && !old(files)[n].Log? ==> n in files
      {
        if total <= LOG_TOTAL_MAX_BYTES {
          break;
        }
        var f := order[k];
        ghost var before := files;
        OneLess(order, k);
        var removed := Remove(f);
        if removed.Err? {
          assert StopsAt(order, k, locked);
          return Err(removed.error);
        }
        RemovedOne(before, files, order[k..]);
        total := if total >= f.size then total - f.size else 0;
        k := k + 1;
      }
      r := Ok(k);
    }

    // On success exactly the expired logs and the shortest oldest-first prefix
    // of the others are gone. A directory with anything unsafe is not touched,
    // and after a removal that fails exactly the files before it are gone.
    method PruneLogs(now: nat) returns (r: Result<(), PruneError>)
      modifies this`files
      ensures r.Ok? ==> exists order, k :: LeftAt(old(files), files, now, order, k)
      ensures r.Err? && r.error != LogPruneFailed <==>
              exists n :: n in old(files) && !(old(files)[n].Log? && old(files)[n].size <= 16 * 1024)
      ensures r.Err? && r.error != LogPruneFailed ==> files == old(files)
      ensures r == Err(UnsafeLogEntry) ==> exists n :: n in files && files[n].Unsafe?
      ensures r == Err(LogFileTooLarge) ==> exists n :: n in files && files[n].Log? && files[n].size > 16 * 1024
      ensures locked == {} && (forall n :: n in old(files) ==> Acceptable(old(files)[n])) ==> r.Ok?
      ensures r == Err(LogPruneFailed) ==>
        || StoppedExpired(old(files), files, now, locked)
        || StoppedOldest(old(files), files, now, locked)
    {
      var collected := Collect();
      if collected.Err? {
        return Err(collected.error);
      }
      var cutoff := Cutoff(now);
      r := DeleteExpired(collected.value, cutoff);
      if r.Err? {
        StopsExpired(old(files), files, collected.value, now, locked);
        return;
      }
      var kept := Unexpired(collected.value, cutoff);
      var order := SortByMillis(kept);
      KeptInOrder(old(files), files, collected.value, cutoff);
      var cut := DeleteOldest(order, Total(kept));
      if cut.Err? {
        StopsOldest(old(files), files, now, order, locked);
        return Err(cut.error);
      }
      CutIsLeft(old(files), files, now, order, cut.value);
    }
  }

  lemma StopsExpired(before: Directory, after: Directory, list: seq<LogFile>, now: nat, locked: set<Name>)
    requires Sorting.Distinct(list) && forall f :: f in list <==> OnDisk(before, f)
    requires exists k :: StopsAt(Expired(list, Cutoff(now)), k, locked)
                         && after == before - Names(Expired(list, Cutoff(now))[..k])
    ensures StoppedExpired(before, after, now, locked)
  {
    ExpiredAt(list, now);
    var expired := Expired(list, Cutoff(now));
    var k :| StopsAt(expired, k, locked) && after == before - Names(expired[..k]);
    assert forall f :: f in expired <==> OnDisk(before, f) && !AtMostTwoWeeksOld(f.millis, now);
  }

  // What the deletion of the oldest starts from.
  lemma KeptInOrder(before: Directory, after: Directory, list: seq<LogFile>, cutoff: nat)
    requires Sorting.Distinct(list) && forall f :: f in list <==> OnDisk(before, f)
    requires after == before - Names(Expired(list, cutoff)) && forall n :: n in before ==> before[n].Log?
    ensures var kept := Unexpired(list, cutoff);
            var order := SortByMillis(kept);
            && IsOrder(before, cutoff, order) && Total(order) == Total(kept)
            && (forall f :: f in order <==> OnDisk(after, f))
  {
    ExpiredMeaning(list, cutoff);
    SortedIsOrder(before, list, cutoff);
    UnexpiredMeaning(list, cutoff);
    SortedLogs(Unexpired(list, cutoff));
    UnexpiredLeft(before, after, list, cutoff);
  }

  lemma StopsOldest(before: Directory, after: Directory, now: nat, order: seq<LogFile>, locked: set<Name>)
    requires IsOrder(before, Cutoff(now), order)
    requires forall n :: n in after ==> n in before && after[n] == before[n] && after[n].Log?
    requires exists k :: StopsAt(order, k, locked) && Total(order[k..]) > LOG_TOTAL_MAX_BYTES
                         && forall f :: OnDisk(after, f) <==> f in order[k..]
    ensures StoppedOldest(before, after, now, locked)
  {
    var k :| StopsAt(order, k, locked) && Total(order[k..]) > LOG_TOTAL_MAX_BYTES
             && forall f :: OnDisk(after, f) <==> f in order[k..];
    KeptIsKeep(before, after, order[k..]);
    OrderAt(before, now, order);
  }

  lemma CutIsLeft(before: Directory, after: Directory, now: nat, order: seq<LogFile>, k: int)
    requires IsOrder(before, Cutoff(now), order) && IsCut(order, k)
    requires forall n :: n in after ==> n in before && after[n] == before[n] && after[n].Log?
    requires forall f :: OnDisk(after, f) <==> f in order[k..]
    ensures LeftAt(before, after, now, order, k)
  {
    KeptIsKeep(before, after, order[k..]);
    PrunedIsLeft(before, after, now, order, k);
  }

  // An expired log that the loop has not come to is still there.
  lemma NotYetGone(before: Directory, list: seq<LogFile>, cutoff: nat, i: nat)
    requires Sorting.Distinct(list) && (forall f :: f in list <==> OnDisk(before, f)) && i < |list|
    ensures OnDisk(before - Names(Expired(list[..i], cutoff)), list[i])
  {
    assert list[i] in list;
    ExpiredMeaning(list[..i], cutoff);
    forall f | f in list[..i] ensures f.name != list[i].name {
      assert f in list && OnDisk(before, f);
    }
  }

  // What is left after the expired logs are the unexpired ones.
  lemma UnexpiredLeft(before: Directory, after: Directory, list: seq<LogFile>, cutoff: nat)
    requires Sorting.Distinct(list) && (forall f :: f in list <==> OnDisk(before, f))
    requires after == before - Names(Expired(list, cutoff))
    ensures forall f :: OnDisk(after, f) <==> OnDisk(before, f) && f.millis >= cutoff
  {
    ExpiredMeaning(list, cutoff);
    forall f ensures OnDisk(after, f) <==> OnDisk(before, f) && f.millis >= cutoff {
      if OnDisk(before, f) {
        assert f in list;
        assert f.name in Names(Expired(list, cutoff)) <==> f in Expired(list, cutoff);
      }
    }
  }

  lemma KeptIsKeep(before: Directory, after: Directory, list: seq<LogFile>)
    requires forall n :: n in after ==> n in before && after[n] == before[n] && after[n].Log?
    requires forall f :: OnDisk(after, f) <==> f in list
    ensures after == Keep(before, list)
  {
    forall n ensures n in after <==> n in Keep(before, list) {
      if n in before && before[n].Log? {
        assert OnDisk(after, LogFile(n, before[n].millis, before[n].size)) <==> n in after;
      }
    }
  }

  lemma OneLess(order: seq<LogFile>, k: nat)
    requires k < |order| && Sorting.Distinct(order)
    ensures order[k..] == [order[k]] + order[k + 1..] && order[k..][1..] == order[k + 1..]
    ensures order[k] !in order[k + 1..]
  {
  }

  lemma RemovedOne(before: Directory, after: Directory, list: seq<LogFile>)
    requires list != [] && list[0] !in list[1..] && forall f :: OnDisk(before, f) <==> f in list
    requires after == before - {list[0].name}
    ensures forall f :: OnDisk(after, f) <==> f in list[1..]
  {
    assert OnDisk(before, list[0]);
    forall f ensures f in list <==> f == list[0] || f in list[1..] {
    }
  }
}
