/** The WRF model's restart files: finding the latest complete set, and pruning older ones. */
module WrfRestarts {
  import opened Options
  import opened WrfCalendar
  import opened WrfTimestamps

  const STAMP_LENGTH := 19
  const RESTART_CHECK_DELAY := 24

  /** A directory entry; a size that cannot be read is negative. */
  datatype Entry = Entry(name: string, regular: bool, size: int)

  predicate Usable(e: Entry) {
    e.regular && e.size > 0
  }

  /** One prefix for each domain, all of one length and no two the same, as they are built from the domain numbers. */
  ghost predicate DomainPrefixes(ps: seq<string>) {
    && (forall k, l :: 0 <= k < |ps| && 0 <= l < |ps| ==> |ps[k]| == |ps[l]|)
    && forall k, l :: 0 <= k < l < |ps| ==> ps[k] != ps[l]
  }

  predicate IsPrefixedStamp(name: string, prefix: string) {
    |name| == |prefix| + STAMP_LENGTH && name[..|prefix|] == prefix && IsWrfDatetimeSuffix(name[|prefix|..])
  }

  /** The entry is a restart file of domain `k` at the given time. */
  ghost predicate IsRestart(e: Entry, ps: seq<string>, k: int, stamp: string)
    requires 0 <= k < |ps|
  {
    Usable(e) && IsWrfDatetimeSuffix(stamp) && e.name == ps[k] + stamp
  }

  ghost predicate Present(dir: seq<Entry>, n: nat, ps: seq<string>, k: int, stamp: string)
    requires n <= |dir| && 0 <= k < |ps|
  {
    exists i :: 0 <= i < n && IsRestart(dir[i], ps, k, stamp)
  }

  /** The time has a restart file for every domain. */
  ghost predicate Complete(dir: seq<Entry>, ps: seq<string>, stamp: string) {
    IsWrfDatetimeSuffix(stamp) && forall k :: 0 <= k < |ps| ==> Present(dir, |dir|, ps, k, stamp)
  }

  // ---------- scanning ----------

  datatype RestartSet = RestartSet(datetime: string, present: seq<bool>)

  ghost predicate SetRight(s: RestartSet, dir: seq<Entry>, n: nat, ps: seq<string>)
    requires n <= |dir|
  {
    && |s.present| == |ps| && IsWrfDatetimeSuffix(s.datetime)
    && forall k :: 0 <= k < |ps| ==> (s.present[k] <==> Present(dir, n, ps, k, s.datetime))
  }

  /** The sets say, for each time and domain, whether a restart file is among the first `n` entries. */
  ghost predicate Scanned(sets: seq<RestartSet>, dir: seq<Entry>, n: nat, ps: seq<string>)
    requires n <= |dir|
  {
    && (forall j :: 0 <= j < |sets| ==> SetRight(sets[j], dir, n, ps))
    && (forall i, j :: 0 <= i < j < |sets| ==> sets[i].datetime != sets[j].datetime)
    && forall k, stamp :: 0 <= k < |ps| && Present(dir, n, ps, k, stamp) ==> HasSet(sets, stamp)
  }

  ghost predicate HasSet(sets: seq<RestartSet>, stamp: string) {
    exists j :: 0 <= j < |sets| && sets[j].datetime == stamp
  }

  /** One more entry adds at most the time and domain in its name. */
  lemma PresentStep(dir: seq<Entry>, n: nat, ps: seq<string>, k: int, stamp: string)
    requires n < |dir| && 0 <= k < |ps|
    ensures Present(dir, n + 1, ps, k, stamp) <==> Present(dir, n, ps, k, stamp) || IsRestart(dir[n], ps, k, stamp)
  {
  }

  /** A name has one domain and one time. */
  lemma NameDecides(e: Entry, ps: seq<string>, k: int, stamp: string)
    requires DomainPrefixes(ps) && 0 <= k < |ps| && IsRestart(e, ps, k, stamp)
    ensures forall l, s :: 0 <= l < |ps| && IsRestart(e, ps, l, s) ==> l == k && s == stamp
  {
    forall l, s | 0 <= l < |ps| && IsRestart(e, ps, l, s) ensures l == k && s == stamp {
      assert e.name[..|ps[k]|] == ps[k] && e.name[..|ps[l]|] == ps[l];
      assert e.name[|ps[k]|..] == stamp && e.name[|ps[l]|..] == s;
    }
  }

  lemma RestartMatches(e: Entry, ps: seq<string>, k: int, stamp: string)
    requires 0 <= k < |ps| && IsRestart(e, ps, k, stamp)
    ensures IsPrefixedStamp(e.name, ps[k])
  {
    assert e.name[..|ps[k]|] == ps[k] && e.name[|ps[k]|..] == stamp;
  }

  /** The domain whose prefix the name has, and the time it ends in. */
  method MatchName(e: Entry, ps: seq<string>) returns (k: int, stamp: string)
    requires DomainPrefixes(ps) && Usable(e)
    ensures -1 <= k < |ps|
    ensures k >= 0 ==> IsRestart(e, ps, k, stamp)
    ensures k < 0 ==> forall l, s :: 0 <= l < |ps| ==> !IsRestart(e, ps, l, s)
  {
    k := 0;
    while k < |ps|
      invariant 0 <= k <= |ps|
      invariant forall l :: 0 <= l < k ==> !IsPrefixedStamp(e.name, ps[l])
    {
      if IsPrefixedStamp(e.name, ps[k]) {
        stamp := e.name[|ps[k]|..];
        assert e.name == ps[k] + stamp;
        return;
      }
      k := k + 1;
    }
    forall l, s | 0 <= l < |ps| && IsRestart(e, ps, l, s) ensures IsPrefixedStamp(e.name, ps[l]) {
      RestartMatches(e, ps, l, s);
    }
    return -1, [];
  }

  method FindSet(sets: seq<RestartSet>, stamp: string) returns (j: nat)
    ensures j <= |sets| && (j < |sets| ==> sets[j].datetime == stamp)
    ensures forall i :: 0 <= i < j ==> sets[i].datetime != stamp
  {
    j := 0;
    while j < |sets| && sets[j].datetime != stamp
      invariant j <= |sets| && forall i :: 0 <= i < j ==> sets[i].datetime != stamp
    {
      j := j + 1;
    }
  }

  /** Groups the non-empty restart files by their time. */
  method ScanRestarts(dir: seq<Entry>, ps: seq<string>) returns (sets: seq<RestartSet>)
    requires DomainPrefixes(ps)
    ensures Scanned(sets, dir, |dir|, ps)
  {
    hide IsRestart, SetRight, HasSet, Present, DomainPrefixes;
    sets := [];
    ScanStart(dir, ps);
    var n := 0;
    while n < |dir|
      invariant 0 <= n <= |dir| && Scanned(sets, dir, n, ps)
    {
      if !Usable(dir[n]) {
        ScanPast(sets, dir, n, ps);
      } else {
        var k, stamp := MatchName(dir[n], ps);
        if k < 0 {
          ScanPast(sets, dir, n, ps);
        } else {
          var j := FindSet(sets, stamp);
          if j == |sets| {
            ScanNew(sets, dir, n, ps, stamp);
            sets := sets + [RestartSet(stamp, seq(|ps|, _ => false))];
          }
          SetSize(sets, dir, n, ps, j);
          ghost var was := sets;
          sets := sets[j := RestartSet(stamp, sets[j].present[k := true])];
          ScanMark(was, sets, dir, n, ps, k, stamp, j);
        }
      }
      n := n + 1;
    }
  }

  lemma ScanStart(dir: seq<Entry>, ps: seq<string>)
    ensures Scanned([], dir, 0, ps)
  {
  }

  lemma NotUsable(e: Entry, ps: seq<string>, k: int, stamp: string)
    requires 0 <= k < |ps| && !Usable(e)
    ensures !IsRestart(e, ps, k, stamp)
  {
  }

  /** An entry that is no restart file changes nothing. */
  lemma ScanPast(sets: seq<RestartSet>, dir: seq<Entry>, n: nat, ps: seq<string>)
    requires n < |dir| && Scanned(sets, dir, n, ps)
    requires !Usable(dir[n]) || forall k, stamp :: 0 <= k < |ps| ==> !IsRestart(dir[n], ps, k, stamp)
    ensures Scanned(sets, dir, n + 1, ps)
  {
    hide Present, IsRestart, HasSet;
    var m := n + 1;
    forall k, stamp | 0 <= k < |ps| ensures Present(dir, m, ps, k, stamp) == Present(dir, n, ps, k, stamp) {
      PresentStep(dir, n, ps, k, stamp);
      if !Usable(dir[n]) {
        NotUsable(dir[n], ps, k, stamp);
      }
    }
  }

  lemma SetFor(sets: seq<RestartSet>, dir: seq<Entry>, n: nat, ps: seq<string>, k: int, stamp: string)
    requires n <= |dir| && Scanned(sets, dir, n, ps) && 0 <= k < |ps| && Present(dir, n, ps, k, stamp)
    ensures HasSet(sets, stamp)
  {
  }

  lemma SetSize(sets: seq<RestartSet>, dir: seq<Entry>, n: nat, ps: seq<string>, j: nat)
    requires n <= |dir| && Scanned(sets, dir, n, ps) && j < |sets|
    ensures |sets[j].present| == |ps|
  {
  }

  /** A time without a set has no files yet, so a set with none is right. */
  lemma ScanNew(sets: seq<RestartSet>, dir: seq<Entry>, n: nat, ps: seq<string>, stamp: string)
    requires n < |dir| && Scanned(sets, dir, n, ps) && IsWrfDatetimeSuffix(stamp)
    requires forall j :: 0 <= j < |sets| ==> sets[j].datetime != stamp
    ensures Scanned(sets + [RestartSet(stamp, seq(|ps|, _ => false))], dir, n, ps)
  {
    hide Present, IsRestart;
    var blank := RestartSet(stamp, seq(|ps|, _ => false));
    forall k | 0 <= k < |ps| ensures !Present(dir, n, ps, k, stamp) {
      if Present(dir, n, ps, k, stamp) {
        SetFor(sets, dir, n, ps, k, stamp);
      }
    }
    assert SetRight(blank, dir, n, ps);
    forall k, st | 0 <= k < |ps| && Present(dir, n, ps, k, st) ensures HasSet(sets + [blank], st) {
      var j :| 0 <= j < |sets| && sets[j].datetime == st;
      assert (sets + [blank])[j].datetime == st;
    }
  }

  /** Marking the domain of a restart file in the set of its time. */
  lemma ScanMark(was: seq<RestartSet>, sets: seq<RestartSet>, dir: seq<Entry>, n: nat, ps: seq<string>, k: int,
          stamp: string, j: nat)
    requires n < |dir| && Scanned(was, dir, n, ps) && DomainPrefixes(ps) && 0 <= k < |ps|
    requires IsRestart(dir[n], ps, k, stamp)
    requires j < |was| && was[j].datetime == stamp && |was[j].present| == |ps|
    requires sets == was[j := RestartSet(stamp, was[j].present[k := true])]
    requires forall i :: 0 <= i < |was| && i != j ==> was[i].datetime != stamp
    ensures Scanned(sets, dir, n + 1, ps)
  {
    hide Present, IsRestart;
    NameDecides(dir[n], ps, k, stamp);
    var m := n + 1;
    forall l, st | 0 <= l < |ps|
      ensures Present(dir, m, ps, l, st) <==> Present(dir, n, ps, l, st) || (l == k && st == stamp)
    {
      PresentStep(dir, n, ps, l, st);
    }
    forall i | 0 <= i < |sets| ensures SetRight(sets[i], dir, m, ps) {
      assert SetRight(was[i], dir, n, ps);
    }
    forall l, st | 0 <= l < |ps| && Present(dir, m, ps, l, st) ensures HasSet(sets, st) {
      if st == stamp {
        assert sets[j].datetime == st;
      } else {
        assert HasSet(was, st);
        var i :| 0 <= i < |was| && was[i].datetime == st;
        assert sets[i].datetime == st;
      }
    }
  }

  // ---------- the latest complete set ----------

  predicate AllPresent(present: seq<bool>) {
    forall k :: 0 <= k < |present| ==> present[k]
  }

  /** The complete set whose time comes last as a string, or -1. */
  method FindLatestValidRestartSet(sets: seq<RestartSet>, maxDomains: nat) returns (latest: int)
    ensures -1 <= latest < |sets|
    ensures latest >= 0 ==> |sets[latest].present| == maxDomains && AllPresent(sets[latest].present)
    ensures forall j :: 0 <= j < |sets| && |sets[j].present| == maxDomains && AllPresent(sets[j].present) ==>
      latest >= 0 && !LexLess(sets[latest].datetime, sets[j].datetime)
  {
    hide LexLess;
    latest := -1;
    var j := 0;
    while j < |sets|
      invariant 0 <= j <= |sets| && -1 <= latest < j
      invariant latest >= 0 ==> |sets[latest].present| == maxDomains && AllPresent(sets[latest].present)
      invariant forall i :: 0 <= i < j && |sets[i].present| == maxDomains && AllPresent(sets[i].present) ==>
        latest >= 0 && !LexLess(sets[latest].datetime, sets[i].datetime)
    {
      if |sets[j].present| == maxDomains {
        var all := true;
        var k := 0;
        while k < |sets[j].present|
          invariant 0 <= k <= |sets[j].present| && all && forall l :: 0 <= l < k ==> sets[j].present[l]
        {
          if !sets[j].present[k] {
            all := false;
            break;
          }
          k := k + 1;
        }
        if all && (latest == -1 || LexLess(sets[latest].datetime, sets[j].datetime)) {
          ghost var was := latest;
          latest := j;
          LexTotal(sets[j].datetime, sets[j].datetime);
          if was >= 0 {
            LaterStill(sets, was, j, maxDomains);
          }
        }
      }
      j := j + 1;
    }
  }

  lemma LaterStill(sets: seq<RestartSet>, was: nat, now: nat, n: nat)
    requires was < now < |sets| && LexLess(sets[was].datetime, sets[now].datetime)
    ensures forall i :: 0 <= i < |sets| && !LexLess(sets[was].datetime, sets[i].datetime) ==> !LexLess(sets[now].datetime, sets[i].datetime)
  {
    forall i | 0 <= i < |sets| && LexLess(sets[now].datetime, sets[i].datetime) ensures LexLess(sets[was].datetime, sets[i].datetime) {
      LexTransitive(sets[was].datetime, sets[now].datetime, sets[i].datetime);
    }
  }

  /** The time of the latest complete restart in a directory, if there is one. */
  method LatestRestart(dir: seq<Entry>, ps: seq<string>) returns (latest: Option<string>)
    requires DomainPrefixes(ps) && ps != []
    ensures latest.Some? ==> Complete(dir, ps, latest.value)
    ensures forall stamp :: Complete(dir, ps, stamp) ==> latest.Some? && !LexLess(latest.value, stamp)
  {
    hide LexLess, Present, DomainPrefixes;
    var sets := ScanRestarts(dir, ps);
    var j := FindLatestValidRestartSet(sets, |ps|);
    if j >= 0 {
      assert SetRight(sets[j], dir, |dir|, ps);
      latest := Some(sets[j].datetime);
    } else {
      latest := None;
    }
    forall stamp | Complete(dir, ps, stamp) ensures latest.Some? && !LexLess(latest.value, stamp) {
      assert Present(dir, |dir|, ps, 0, stamp);
      SetFor(sets, dir, |dir|, ps, 0, stamp);
      var i :| 0 <= i < |sets| && sets[i].datetime == stamp;
      assert SetRight(sets[i], dir, |dir|, ps);
      assert |sets[i].present| == |ps| && AllPresent(sets[i].present);
    }
  }

  /** No complete restart at a valid date is later in time than the latest one. */
  lemma LatestIsChronological(latest: string, other: string)
    requires IsWrfDatetimeSuffix(latest) && IsWrfDatetimeSuffix(other) && !LexLess(latest, other)
    requires IsValid(ParseWrfTimestamp(latest).value) && IsValid(ParseWrfTimestamp(other).value)
    ensures AbsoluteSeconds(ParseWrfTimestamp(other).value) <= AbsoluteSeconds(ParseWrfTimestamp(latest).value)
    ensures AbsoluteSeconds(ParseWrfTimestamp(other).value) == AbsoluteSeconds(ParseWrfTimestamp(latest).value) ==> other == latest
  {
    hide LexLess, ParseWrfTimestamp, AbsoluteSeconds;
    LexIsChronological(latest, other);
    LexIsChronological(other, latest);
    LexTotal(latest, other);
  }

  // ---------- pruning ----------

  ghost predicate Ascending(s: seq<string>) {
    forall i, j :: 0 <= i < j < |s| ==> LexLess(s[i], s[j])
  }

  /** Adds a string to an ordered set of strings. */
  method Insert(s: seq<string>, x: string) returns (t: seq<string>)
    requires Ascending(s)
    ensures Ascending(t) && forall y :: y in t <==> y in s || y == x
  {
    hide LexLess;
    var i := 0;
    while i < |s| && LexLess(s[i], x)
      invariant 0 <= i <= |s| && forall k :: 0 <= k < i ==> LexLess(s[k], x)
    {
      i := i + 1;
    }
    if i < |s| && s[i] == x {
      t := s;
    } else {
      t := s[..i] + [x] + s[i..];
      if i < |s| {
        LexTotal(s[i], x);
        forall k | i < k < |s| ensures LexLess(x, s[k]) {
          LexTransitive(x, s[i], s[k]);
        }
      }
    }
  }

  /** The file is a non-empty restart file of some domain, at the given time. */
  ghost predicate RestartOf(e: Entry, ps: seq<string>, stamp: string) {
    exists k :: 0 <= k < |ps| && IsRestart(e, ps, k, stamp)
  }

  ghost predicate AnyAt(dir: seq<Entry>, n: nat, ps: seq<string>, stamp: string)
    requires n <= |dir|
  {
    exists i :: 0 <= i < n && RestartOf(dir[i], ps, stamp)
  }

  /** Two different later times have restart files. */
  ghost predicate TwoLater(dir: seq<Entry>, ps: seq<string>, stamp: string) {
    exists u, v :: u != v && AnyAt(dir, |dir|, ps, u) && AnyAt(dir, |dir|, ps, v) && LexLess(stamp, u) && LexLess(stamp, v)
  }

  /** The entry is a restart file, and two different later times have restart files. */
  ghost predicate IsOld(dir: seq<Entry>, ps: seq<string>, i: nat)
    requires i < |dir|
  {
    exists stamp :: RestartOf(dir[i], ps, stamp) && TwoLater(dir, ps, stamp)
  }

  lemma OldFile(dir: seq<Entry>, ps: seq<string>, i: nat, mine: Option<string>)
    requires i < |dir| && forall stamp :: RestartOf(dir[i], ps, stamp) <==> mine == Some(stamp)
    ensures IsOld(dir, ps, i) <==> mine.Some? && TwoLater(dir, ps, mine.value)
  {
    hide RestartOf, TwoLater;
    if mine.Some? && TwoLater(dir, ps, mine.value) {
      assert RestartOf(dir[i], ps, mine.value);
    }
  }

  /** The times of all restart files in order, and for each entry the time of the restart file it is. */
  method CollectStamps(dir: seq<Entry>, ps: seq<string>) returns (stamps: seq<string>, of: seq<Option<string>>)
    requires DomainPrefixes(ps)
    ensures Ascending(stamps) && |of| == |dir|
    ensures forall stamp :: stamp in stamps <==> AnyAt(dir, |dir|, ps, stamp)
    ensures forall i, stamp :: 0 <= i < |dir| ==> (RestartOf(dir[i], ps, stamp) <==> of[i] == Some(stamp))
  {
    hide IsRestart, LexLess, DomainPrefixes;
    stamps, of := [], [];
    var n := 0;
    while n < |dir|
      invariant 0 <= n <= |dir| && |of| == n && Ascending(stamps)
      invariant forall stamp :: stamp in stamps <==> AnyAt(dir, n, ps, stamp)
      invariant forall i, stamp :: 0 <= i < n ==> (RestartOf(dir[i], ps, stamp) <==> of[i] == Some(stamp))
    {
      var mine := StampOfEntry(dir[n], ps);
      AnyStep(dir, n, ps);
      if mine.Some? {
        stamps := Insert(stamps, mine.value);
      }
      of := of + [mine];
      n := n + 1;
    }
  }

  lemma AnyStep(dir: seq<Entry>, n: nat, ps: seq<string>)
    requires n < |dir|
    ensures forall stamp :: AnyAt(dir, n + 1, ps, stamp) <==> AnyAt(dir, n, ps, stamp) || RestartOf(dir[n], ps, stamp)
  {
    hide RestartOf;
  }

  method StampOfEntry(e: Entry, ps: seq<string>) returns (mine: Option<string>)
    requires DomainPrefixes(ps)
    ensures forall stamp :: RestartOf(e, ps, stamp) <==> mine == Some(stamp)
  {
    hide IsRestart, DomainPrefixes;
    if !Usable(e) {
      forall k, s | 0 <= k < |ps| ensures !IsRestart(e, ps, k, s) {
        NotUsable(e, ps, k, s);
      }
      return None;
    }
    var k, stamp := MatchName(e, ps);
    if k < 0 {
      return None;
    }
    NameDecides(e, ps, k, stamp);
    return Some(stamp);
  }

  /** What becomes of an entry of the directory. */
  datatype Fate = Stays | Deleted | Undeletable

  /**
   * Deletes exactly the restart files that are older than two different other times, as far as they can be deleted. Of any
   * directory, the files of the two latest times stay. At steps that are not due for a check, and when the directory cannot be
   * read, all entries stay.
   */
  method PruneRestarts(step: int, dir: seq<Entry>, ps: seq<string>) returns (ok: bool, fates: seq<Fate>)
    requires DomainPrefixes(ps)
    ensures |fates| == |dir| && (!ok ==> step > 0 && step % RESTART_CHECK_DELAY == 0)
    ensures !ok || step <= 0 || step % RESTART_CHECK_DELAY != 0 ==> forall i :: 0 <= i < |dir| ==> fates[i] == Stays
    ensures ok && step > 0 && step % RESTART_CHECK_DELAY == 0 ==> forall i :: 0 <= i < |dir| ==> (fates[i] == Stays <==> !IsOld(dir, ps, i))
  {
    hide LexLess, RestartOf, AnyAt, DomainPrefixes, TwoLater, IsOld;
    ok, fates := true, seq(|dir|, _ => Stays);
    if step <= 0 || step % RESTART_CHECK_DELAY != 0 {
      return;
    }
    if * {
      ok := false;
      return;
    }
    var stamps, of := CollectStamps(dir, ps);
    var keep: set<string> := {};
    if |stamps| > 0 {
      keep := keep + {stamps[|stamps| - 1]};
    }
    if |stamps| > 1 {
      keep := keep + {stamps[|stamps| - 2]};
    }
    var i := 0;
    while i < |dir|
      invariant 0 <= i <= |dir| && |fates| == |dir|
      invariant forall j :: 0 <= j < i ==> (fates[j] == Stays <==> !IsOld(dir, ps, j))
      invariant forall j :: i <= j < |dir| ==> fates[j] == Stays
    {
      OldFile(dir, ps, i, of[i]);
      if of[i].Some? {
        assert RestartOf(dir[i], ps, of[i].value);
        KeptOrOld(dir, ps, stamps, i, of[i].value);
        if |stamps| > 2 && of[i].value !in keep {
          var fate :| fate == Deleted || fate == Undeletable;
          fates := fates[i := fate];
        }
      }
      i := i + 1;
    }
  }

  ghost predicate Dated(stamp: string) {
    IsWrfDatetimeSuffix(stamp) && IsValid(ParseWrfTimestamp(stamp).value)
  }

  /** The time in seconds that a timestamp of a valid date stands for. */
  ghost function Time(stamp: string): int
    requires Dated(stamp)
  {
    AbsoluteSeconds(ParseWrfTimestamp(stamp).value)
  }

  ghost predicate AllDated(dir: seq<Entry>, ps: seq<string>) {
    forall stamp :: AnyAt(dir, |dir|, ps, stamp) ==> Dated(stamp)
  }

  /** There are restart files of two different times after the given one. */
  ghost predicate TwoLaterTimes(dir: seq<Entry>, ps: seq<string>, seconds: int)
    requires AllDated(dir, ps)
  {
    exists u, v :: AnyAt(dir, |dir|, ps, u) && AnyAt(dir, |dir|, ps, v) && Time(u) != Time(v) && seconds < Time(u) && seconds < Time(v)
  }

  /** Where all restart files are of valid dates, those to delete are the ones that two different times come after. */
  lemma OldIsChronological(dir: seq<Entry>, ps: seq<string>, i: nat, stamp: string)
    requires i < |dir| && DomainPrefixes(ps) && AllDated(dir, ps) && RestartOf(dir[i], ps, stamp)
    ensures Dated(stamp) && (IsOld(dir, ps, i) <==> TwoLaterTimes(dir, ps, Time(stamp)))
  {
    hide LexLess, RestartOf, Dated, Time, DomainPrefixes;
    assert AnyAt(dir, |dir|, ps, stamp);
    OneStamp(dir[i], ps, stamp);
    if TwoLater(dir, ps, stamp) {
      var u, v :| u != v && AnyAt(dir, |dir|, ps, u) && AnyAt(dir, |dir|, ps, v) && LexLess(stamp, u) && LexLess(stamp, v);
      TimesOrdered(stamp, u);
      TimesOrdered(stamp, v);
      TimesOrdered(u, v);
    }
    if TwoLaterTimes(dir, ps, Time(stamp)) {
      var u, v :| AnyAt(dir, |dir|, ps, u) && AnyAt(dir, |dir|, ps, v) && Time(u) != Time(v) &&
        Time(stamp) < Time(u) && Time(stamp) < Time(v);
      TimesOrdered(stamp, u);
      TimesOrdered(stamp, v);
    }
  }

  lemma OneStamp(e: Entry, ps: seq<string>, stamp: string)
    requires DomainPrefixes(ps) && RestartOf(e, ps, stamp)
    ensures forall other :: RestartOf(e, ps, other) ==> other == stamp
  {
    hide IsRestart, DomainPrefixes;
    var k :| 0 <= k < |ps| && IsRestart(e, ps, k, stamp);
    NameDecides(e, ps, k, stamp);
  }

  lemma TimesOrdered(s: string, t: string)
    requires Dated(s) && Dated(t)
    ensures LexLess(s, t) <==> Time(s) < Time(t)
    ensures Time(s) == Time(t) ==> s == t
  {
    hide LexLess, ParseWrfTimestamp, AbsoluteSeconds;
    LexIsChronological(s, t);
    LexIsChronological(t, s);
    LexTotal(s, t);
  }

  /** Among all times in order, a time has two later ones unless it is one of the last two. */
  lemma KeptOrOld(dir: seq<Entry>, ps: seq<string>, stamps: seq<string>, i: nat, mine: string)
    requires i < |dir| && RestartOf(dir[i], ps, mine) && Ascending(stamps)
    requires forall stamp :: stamp in stamps <==> AnyAt(dir, |dir|, ps, stamp)
    ensures stamps != []
    ensures TwoLater(dir, ps, mine) <==> |stamps| > 2 && mine != stamps[|stamps| - 1] && mine != stamps[|stamps| - 2]
  {
    hide LexLess, RestartOf;
    var n := |stamps|;
    assert AnyAt(dir, |dir|, ps, mine);
    var p :| 0 <= p < n && stamps[p] == mine;
    if p < n - 2 {
      LexTotal(stamps[n - 2], stamps[n - 1]);
      assert stamps[n - 2] in stamps && stamps[n - 1] in stamps;
    }
    if TwoLater(dir, ps, mine) {
      var u, v :| u != v && AnyAt(dir, |dir|, ps, u) && AnyAt(dir, |dir|, ps, v) && LexLess(mine, u) && LexLess(mine, v);
      var a :| 0 <= a < n && stamps[a] == u;
      var b :| 0 <= b < n && stamps[b] == v;
      LaterPlace(stamps, p, a);
      LaterPlace(stamps, p, b);
      LexTotal(mine, stamps[n - 1]);
    }
    if mine == stamps[n - 1] {
      SamePlace(stamps, p, n - 1);
    }
    if n > 1 && mine == stamps[n - 2] {
      SamePlace(stamps, p, n - 2);
    }
  }

  lemma LaterPlace(s: seq<string>, i: nat, j: nat)
    requires Ascending(s) && i < |s| && j < |s| && LexLess(s[i], s[j])
    ensures i < j
  {
    LexTotal(s[i], s[j]);
  }

  lemma SamePlace(s: seq<string>, i: nat, j: nat)
    requires Ascending(s) && i < |s| && j < |s| && s[i] == s[j]
    ensures i == j
  {
    LexTotal(s[i], s[j]);
  }
}
