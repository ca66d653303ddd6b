/** Keeping the newest backups of a database (internal/infrastructure/fs/backup_store.go). */
module Cleanup {
  import opened Common

  // ---------- the order of sort.Strings ----------

  predicate Before(a: string, b: string) {
    b != "" && (a == "" || a[0] < b[0] || (a[0] == b[0] && Before(a[1..], b[1..])))
  }

  lemma {:induction false} BeforeIsStrict(a: string, b: string)
    ensures !(Before(a, b) && Before(b, a))
    ensures a == b ==> !Before(a, b)
  {
    if a != "" && b != "" {
      BeforeIsStrict(a[1..], b[1..]);
    }
  }

  lemma {:induction false} BeforeIsTotal(a: string, b: string)
    ensures Before(a, b) || a == b || Before(b, a)
  {
    if a != "" && b != "" {
      BeforeIsTotal(a[1..], b[1..]);
      if a[1..] == b[1..] && a[0] == b[0] {
        assert a == [a[0]] + a[1..] && b == [b[0]] + b[1..];
      }
    }
  }

  lemma {:induction false} BeforeIsTransitive(a: string, b: string, c: string)
    requires Before(a, b) && Before(b, c)
    ensures Before(a, c)
  {
    if a != "" && a[0] == b[0] && b[0] == c[0] {
      BeforeIsTransitive(a[1..], b[1..], c[1..]);
    }
  }

  lemma {:induction false} CommonPrefix(p: string, a: string, b: string)
    ensures Before(p + a, p + b) <==> Before(a, b)
  {
    if p == "" {
      assert p + a == a && p + b == b;
    } else {
      CommonPrefix(p[1..], a, b);
      assert (p + a)[1..] == p[1..] + a && (p + b)[1..] == p[1..] + b;
    }
  }

  /** The order of sort.Strings in one line: the smaller string is a proper beginning of the
      other, or has the smaller character where they first differ. */
  lemma {:induction false} BeforeMeaning(a: string, b: string)
    ensures Before(a, b) <==>
            exists i :: 0 <= i <= |a| && i < |b| && a[..i] == b[..i] && (i == |a| || a[i] < b[i])
  {
    if a != "" && b != "" && a[0] == b[0] {
      BeforeMeaning(a[1..], b[1..]);
      if i :| 0 <= i <= |a| && i < |b| && a[..i] == b[..i] && (i == |a| || a[i] < b[i]) {
        assert i > 0;
        assert a[1..][..i - 1] == a[..i][1..] && b[1..][..i - 1] == b[..i][1..];
      }
      var x, y := a[1..], b[1..];
      if j :| 0 <= j <= |x| && j < |y| && x[..j] == y[..j] && (j == |x| || x[j] < y[j]) {
        assert a[..j + 1] == [a[0]] + x[..j] && b[..j + 1] == [b[0]] + y[..j];
      }
    } else if a == "" && b != "" {
      assert a[..0] == b[..0];
    } else if a != "" && b != "" {
      assert a[..0] == b[..0];
      assert forall i | 0 < i <= |a| && i < |b| :: a[..i][0] == a[0] && b[..i][0] == b[0];
    }
  }

  /** Comparing two texts column by column. */
  lemma {:induction false} ColumnOrder(a: string, b: string, x: string, y: string)
    requires |a| == |b|
    ensures Before(a + x, b + y) <==> Before(a, b) || (a == b && Before(x, y))
  {
    if a == "" {
      assert a + x == x && b + y == y;
    } else {
      ColumnOrder(a[1..], b[1..], x, y);
      assert (a + x)[1..] == a[1..] + x && (b + y)[1..] == b[1..] + y;
      assert a == [a[0]] + a[1..] && b == [b[0]] + b[1..];
    }
  }

  /** filepath.Join for a cleaned directory and a plain file name. */
  function Join(dir: string, name: string): string {
    if dir == "." then name else if dir == "/" then "/" + name else dir + ("/" + name)
  }

  /** A slash separates the directory from the name, once; the current directory is dropped. */
  lemma JoinMeaning(dir: string, name: string)
    ensures dir !in {".", "/"} ==>
              && |Join(dir, name)| == |dir| + 1 + |name| && Join(dir, name)[|dir|] == '/'
              && Join(dir, name)[..|dir|] == dir && Join(dir, name)[|dir| + 1..] == name
    ensures Join("/", name) == ['/'] + name && Join(".", name) == name
  {
  }

  /** Sorting the joined paths is sorting the names. */
  lemma JoinKeepsOrder(dir: string, a: string, b: string)
    ensures Before(Join(dir, a), Join(dir, b)) <==> Before(a, b)
  {
    CommonPrefix("/", a, b);
    CommonPrefix(dir, "/" + a, "/" + b);
  }

  ghost predicate Ascending(s: seq<string>) {
    forall i, j | 0 <= i < j < |s| :: Before(s[i], s[j])
  }

  ghost predicate Distinct(s: seq<string>) {
    forall i, j | 0 <= i < j < |s| :: s[i] != s[j]
  }

  function InsertName(sorted: seq<string>, name: string): seq<string> {
    if sorted == [] || Before(name, sorted[0]) then [name] + sorted
    else [sorted[0]] + InsertName(sorted[1..], name)
  }

  function Sorted(s: seq<string>): seq<string> {
    if s == [] then [] else InsertName(Sorted(s[1..]), s[0])
  }

  lemma {:induction false} InsertNameMeaning(sorted: seq<string>, name: string)
    requires Ascending(sorted) && name !in sorted
    ensures Ascending(InsertName(sorted, name))
    ensures |InsertName(sorted, name)| == |sorted| + 1
    ensures forall x :: x in InsertName(sorted, name) <==> x in sorted || x == name
  {
    if sorted != [] {
      var rest := sorted[1..];
      assert sorted == [sorted[0]] + rest;
      if Before(name, sorted[0]) {
        forall i | 0 <= i < |sorted|
          ensures Before(name, sorted[i])
        {
          if i > 0 {
            BeforeIsTransitive(name, sorted[0], sorted[i]);
          }
        }
      } else {
        BeforeIsTotal(name, sorted[0]);
        InsertNameMeaning(rest, name);
        var r := InsertName(rest, name);
        forall i | 0 <= i < |r|
          ensures Before(sorted[0], r[i])
        {
          assert r[i] in r;
          if r[i] in rest {
            var k :| 0 <= k < |rest| && rest[k] == r[i];
            assert sorted[k + 1] == r[i];
          }
        }
      }
    }
  }

  lemma {:induction false} SortedMeaning(s: seq<string>)
    requires Distinct(s)
    ensures Ascending(Sorted(s)) && |Sorted(s)| == |s|
    ensures forall x :: x in Sorted(s) <==> x in s
  {
    if s != [] {
      assert s == [s[0]] + s[1..];
      SortedMeaning(s[1..]);
      InsertNameMeaning(Sorted(s[1..]), s[0]);
    }
  }

  // ---------- which files count as backups ----------

  predicate StartsWith(s: string, prefix: string) {
    |prefix| <= |s| && s[..|prefix|] == prefix
  }

  predicate EndsWith(s: string, suffix: string) {
    |suffix| <= |s| && s[|s| - |suffix|..] == suffix
  }

  predicate Matches(base: string, name: string) {
    StartsWith(name, base + ".") && EndsWith(name, ".bak")
  }

  /** The counted names, character by character: the database's name and a dot in front, .bak
      at the end. */
  predicate BackupShaped(base: string, name: string) {
    && |base| < |name| && name[|base|] == '.' && (forall i | 0 <= i < |base| :: name[i] == base[i])
    && 4 <= |name| && name[|name| - 4..] == ['.', 'b', 'a', 'k']
  }

  lemma CountedNames(base: string, name: string)
    ensures Matches(base, name) <==> BackupShaped(base, name)
  {
    if |base| < |name| {
      assert (base + ".")[|base|] == '.';
      assert name[..|base| + 1] == base + "." <==>
             name[|base|] == '.' && forall i | 0 <= i < |base| :: name[i] == base[i] by {
        if name[|base|] == '.' && forall i | 0 <= i < |base| :: name[i] == base[i] {
          assert name[..|base|] == base;
          assert name[..|base| + 1] == name[..|base|] + ".";
        }
        if name[..|base| + 1] == base + "." {
          assert forall i | 0 <= i < |base| :: name[i] == (base + ".")[i];
          assert name[|base|] == (base + ".")[|base|];
        }
      }
    }
  }

  function MatchesIn(base: string, names: set<string>): set<string> {
    set n | n in names && Matches(base, n)
  }

  lemma CountedSet(base: string, names: set<string>)
    ensures MatchesIn(base, names) == set n | n in names && BackupShaped(base, n)
  {
    forall n
      ensures n in MatchesIn(base, names) <==> n in names && BackupShaped(base, n)
    {
      CountedNames(base, n);
    }
  }

  function KeepCount(keepLastN: int): nat {
    if keepLastN < 1 then 3 else keepLastN
  }

  function Min(a: nat, b: nat): nat { if a < b then a else b }

  // ---------- cleaning up ----------

  /** What may be gone after a cleanup, even one that failed midway: only matches, all of
      them smaller than every match still there, and never so many that fewer than the keep
      count remain. */
  ghost predicate OnlyOldestGone(was: set<string>, now: set<string>, base: string, keep: nat) {
    && now <= was
    && (forall n | n in was && n !in now :: Matches(base, n))
    && (forall n, m | n in was && n !in now && m in MatchesIn(base, now) :: Before(n, m))
    && |MatchesIn(base, now)| >= Min(keep, |MatchesIn(base, was)|)
  }

  /** A complete cleanup also leaves no match beyond the keep count. */
  ghost predicate KeepsNewest(was: set<string>, now: set<string>, base: string, keep: nat) {
    OnlyOldestGone(was, now, base, keep) && |MatchesIn(base, now)| == Min(keep, |MatchesIn(base, was)|)
  }

  lemma {:induction false} DistinctSize(s: seq<string>)
    requires Distinct(s)
    ensures |set x | x in s| == |s|
  {
    if s != [] {
      assert s == [s[0]] + s[1..];
      DistinctSize(s[1..]);
      var rest := set x | x in s[1..];
      assert s[0] !in rest;
      assert (set x | x in s) == rest + {s[0]};
    }
  }

  lemma AscendingIsDistinct(s: seq<string>)
    requires Ascending(s)
    ensures Distinct(s)
  {
    forall i, j | 0 <= i < j < |s|
      ensures s[i] != s[j]
    {
      BeforeIsStrict(s[i], s[j]);
    }
  }

  /** Removing the first k of the sorted matches and nothing else. */
  ghost predicate FirstGone(was: set<string>, now: set<string>, sorted: seq<string>, k: nat)
    requires k <= |sorted|
  {
    forall n :: n in now <==> n in was && !(exists j :: 0 <= j < k && sorted[j] == n)
  }

  /** The matches left are the rest of the sorted matches. */
  lemma FirstGoneLeft(was: set<string>, now: set<string>, base: string, sorted: seq<string>, k: nat, x: string)
    requires Distinct(sorted)
    requires forall x :: x in sorted <==> x in MatchesIn(base, was)
    requires k <= |sorted| && FirstGone(was, now, sorted, k)
    ensures x in sorted[k..] <==> x in MatchesIn(base, now)
  {
    var tail := sorted[k..];
    if x in tail {
      var i :| 0 <= i < |tail| && tail[i] == x;
      assert sorted[k + i] == x && sorted[k + i] in sorted;
    }
    if x in MatchesIn(base, now) {
      assert x in sorted;
      var i :| 0 <= i < |sorted| && sorted[i] == x;
      assert i >= k && tail[i - k] == x;
    }
  }

  lemma FirstGoneOrder(was: set<string>, now: set<string>, base: string, sorted: seq<string>, k: nat,
                       n: string, m: string)
    requires Ascending(sorted)
    requires forall x :: x in sorted <==> x in MatchesIn(base, was)
    requires k <= |sorted| && FirstGone(was, now, sorted, k)
    requires n in was && n !in now
    ensures Matches(base, n)
    ensures m in MatchesIn(base, now) ==> Before(n, m)
  {
    var j :| 0 <= j < k && sorted[j] == n;
    assert sorted[j] in sorted;
    if m in MatchesIn(base, now) {
      AscendingIsDistinct(sorted);
      FirstGoneLeft(was, now, base, sorted, k, m);
      var tail := sorted[k..];
      var i :| 0 <= i < |tail| && tail[i] == m;
      assert sorted[k + i] == m;
    }
  }

  lemma FirstGoneMeaning(was: set<string>, now: set<string>, base: string, keep: nat, sorted: seq<string>, k: nat)
    requires Ascending(sorted)
    requires forall x :: x in sorted <==> x in MatchesIn(base, was)
    requires k <= |sorted| && (k > 0 ==> k <= |sorted| - keep)
    requires FirstGone(was, now, sorted, k)
    ensures OnlyOldestGone(was, now, base, keep)
    ensures |MatchesIn(base, was)| == |sorted| && |MatchesIn(base, now)| == |sorted| - k
  {
    AscendingIsDistinct(sorted);
    DistinctSize(sorted);
    assert (set x | x in sorted) == MatchesIn(base, was);
    DistinctSize(sorted[k..]);
    forall x
      ensures x in sorted[k..] <==> x in MatchesIn(base, now)
    {
      FirstGoneLeft(was, now, base, sorted, k, x);
    }
    assert (set x | x in sorted[k..]) == MatchesIn(base, now);
    forall n, m | n in was && n !in now
      ensures Matches(base, n) && (m in MatchesIn(base, now) ==> Before(n, m))
    {
      FirstGoneOrder(was, now, base, sorted, k, n, m);
    }
  }

  /** A directory, named by its cleaned path, and its files by their base names. */
  class Folder {
    const dir: string
    var files: map<string, Content>

    constructor (dir: string, files: map<string, Content>)
      ensures this.dir == dir && this.files == files
    {
      this.dir, this.files := dir, files;
    }

    /** os.ReadDir: every name once, or a failure. */
    method ReadDir(fails: bool) returns (entries: Option<seq<string>>)
      ensures fails <==> entries.None?
      ensures entries.Some? ==> Distinct(entries.value) && forall n :: n in entries.value <==> n in files
    {
      if fails {
        return None;
      }
      var left, result := files.Keys, [];
      while left != {}
        invariant Distinct(result) && left <= files.Keys
        invariant forall n :: n in result <==> n in files && n !in left
        decreases |left|
      {
        var n :| n in left;
        left, result := left - {n}, result + [n];
      }
      return Some(result);
    }

    /** The entries that count as backups. */
    method CollectBackups(base: string, entries: seq<string>) returns (backups: seq<string>)
      requires Distinct(entries)
      ensures Distinct(backups)
      ensures forall n :: n in backups <==> n in entries && Matches(base, n)
    {
      backups := [];
      for i := 0 to |entries|
        invariant Distinct(backups)
        invariant forall n :: n in backups <==> Matches(base, n) && exists j :: 0 <= j < i && entries[j] == n
      {
        assert entries[i] !in backups;
        if StartsWith(entries[i], base + ".") && EndsWith(entries[i], ".bak") {
          backups := backups + [entries[i]];
        }
      }
    }

    /** Removal of a file fails exactly for the names in stuck. */
    method CleanupBackups(base: string, keepLastN: int, unreadable: bool, stuck: set<string>) returns (ok: bool)
      modifies this
      ensures ok ==> KeepsNewest(old(files).Keys, files.Keys, base, KeepCount(keepLastN))
      ensures OnlyOldestGone(old(files).Keys, files.Keys, base, KeepCount(keepLastN))
      ensures forall n | n in files :: n in old(files) && files[n] == old(files)[n]
      ensures forall n | n in old(files) && n !in files :: BackupShaped(base, n)
      ensures ok ==>
                var left := set n | n in files.Keys && BackupShaped(base, n);
                var all := set n | n in old(files).Keys && BackupShaped(base, n);
                var keep := if keepLastN >= 1 then keepLastN else 3;
                |left| == if |all| <= keep then |all| else keep
      ensures unreadable ==> !ok && files == old(files)
      ensures !ok && !unreadable ==>
                exists n :: n in stuck && n in MatchesIn(base, files.Keys)
                            && forall m | m in MatchesIn(base, files.Keys) :: m == n || Before(n, m)
      ensures forall n | n in stuck && n in old(files) :: n in files
    {
      var keep := keepLastN;
      if keep < 1 {
        keep := 3;
      }
      ok := RemoveExcess(base, keep, unreadable, stuck);
      CountedSet(base, old(files).Keys);
      CountedSet(base, files.Keys);
      forall n | n in old(files) && n !in files
        ensures BackupShaped(base, n)
      {
        CountedNames(base, n);
      }
    }

    method RemoveExcess(base: string, keep: nat, unreadable: bool, stuck: set<string>) returns (ok: bool)
      modifies this
      ensures ok ==> KeepsNewest(old(files).Keys, files.Keys, base, keep)
      ensures OnlyOldestGone(old(files).Keys, files.Keys, base, keep)
      ensures forall n | n in files :: n in old(files) && files[n] == old(files)[n]
      ensures unreadable ==> !ok && files == old(files)
      ensures !ok && !unreadable ==>
                exists n :: n in stuck && n in MatchesIn(base, files.Keys)
                            && forall m | m in MatchesIn(base, files.Keys) :: m == n || Before(n, m)
      ensures forall n | n in stuck && n in old(files) :: n in files
    {
      ghost var was := files.Keys;
      var entries := ReadDir(unreadable);
      if entries.None? {
        return false;
      }
      var backups := CollectBackups(base, entries.value);
      SortedMeaning(backups);
      backups := Sorted(backups);
      assert forall n :: n in backups <==> n in MatchesIn(base, was);
      if |backups| <= keep {
        FirstGoneMeaning(was, files.Keys, base, keep, backups, 0);
        return true;
      }
      for i := 0 to |backups| - keep
        invariant FirstGone(was, files.Keys, backups, i)
        invariant forall n | n in files :: n in old(files) && files[n] == old(files)[n]
        invariant forall j | 0 <= j < i :: backups[j] !in stuck
      {
        assert backups[i] in backups;
        if backups[i] in stuck {
          FirstGoneMeaning(was, files.Keys, base, keep, backups, i);
          SmallestLeft(was, files.Keys, base, backups, i);
          return false;
        }
        files := files - {backups[i]};
      }
      FirstGoneMeaning(was, files.Keys, base, keep, backups, |backups| - keep);
      return true;
    }
  }

  lemma SmallestLeft(was: set<string>, now: set<string>, base: string, sorted: seq<string>, k: nat)
    requires Ascending(sorted) && k < |sorted|
    requires forall x :: x in sorted <==> x in MatchesIn(base, was)
    requires FirstGone(was, now, sorted, k)
    ensures sorted[k] in MatchesIn(base, now)
    ensures forall m | m in MatchesIn(base, now) :: m == sorted[k] || Before(sorted[k], m)
  {
    AscendingIsDistinct(sorted);
    assert sorted[k] in sorted;
    forall m | m in MatchesIn(base, now)
      ensures m == sorted[k] || Before(sorted[k], m)
    {
      assert m in sorted;
      var i :| 0 <= i < |sorted| && sorted[i] == m;
      assert i >= k;
    }
  }

  function Greater(base: string, names: set<string>, name: string): set<string> {
    set m | m in MatchesIn(base, names) && Before(name, m)
  }

  /** After a complete cleanup a backup is still there if and only if fewer than the keep
      count of the matching names are greater than its own. */
  lemma SurvivesIffFewGreater(was: set<string>, now: set<string>, base: string, keep: nat, name: string)
    requires keep > 0 && KeepsNewest(was, now, base, keep)
    requires name in MatchesIn(base, was)
    ensures name in now <==> |Greater(base, was, name)| < keep
  {
    var greater := Greater(base, was, name);
    var left := MatchesIn(base, now);
    if name in now {
      forall m | m in greater
        ensures m in left - {name}
      {
        BeforeIsStrict(name, m);
      }
      SubsetSize(greater, left - {name});
    } else {
      assert left <= greater;
      SubsetSize(left, greater);
      assert left <= MatchesIn(base, was) - {name};
      SubsetSize(left, MatchesIn(base, was) - {name});
    }
  }

  /** After any cleanup, even one that failed midway, a backup is gone only if at least the keep
      count of matches are greater. */
  lemma GoneOnlyIfCrowded(was: set<string>, now: set<string>, base: string, keep: nat, name: string)
    requires keep > 0 && OnlyOldestGone(was, now, base, keep)
    requires name in MatchesIn(base, was) && name !in now
    ensures |Greater(base, was, name)| >= keep
  {
    var left := MatchesIn(base, now);
    SubsetSize(left, Greater(base, was, name));
    SubsetSize(left, MatchesIn(base, was) - {name});
  }

  lemma {:induction false} SubsetSize(a: set<string>, b: set<string>)
    requires a <= b
    ensures |a| <= |b|
    decreases |a|
  {
    if a != {} {
      var x :| x in a;
      SubsetSize(a - {x}, b - {x});
    }
  }

  // ---------- the names CreateBackup gives ----------

  datatype Time = Time(year: nat, month: nat, day: nat, hour: nat, minute: nat, second: nat)

  predicate FourDigitYear(t: Time) {
    && t.year < 10000
    && 1 <= t.month <= 12 && 1 <= t.day <= 31 && t.hour < 24 && t.minute < 60 && t.second < 60
  }

  /** A UTC time to the second, in a year of four digits. */
  type Stamp = t: Time | FourDigitYear(t) witness Time(1970, 1, 1, 0, 0, 0)

  predicate Earlier(a: Stamp, b: Stamp) {
    || a.year < b.year
    || (a.year == b.year && (a.month < b.month
    || (a.month == b.month && (a.day < b.day
    || (a.day == b.day && (a.hour < b.hour
    || (a.hour == b.hour && (a.minute < b.minute
    || (a.minute == b.minute && a.second < b.second)))))))))
  }

  function Pow10(w: nat): (p: nat)
    ensures p >= 1
  {
    if w == 0 then 1 else 10 * Pow10(w - 1)
  }

  function Digit(d: nat): char
    requires d < 10
  {
    '0' + d as char
  }

  /** n in decimal, padded with zeros to w digits. */
  function Digits(w: nat, n: nat): (s: string)
    ensures |s| == w
    ensures forall i | 0 <= i < |s| :: '0' <= s[i] <= '9'
  {
    if w == 0 then "" else Digits(w - 1, n / 10) + [Digit(n % 10)]
  }

  lemma {:induction false} DigitsOrder(w: nat, n: nat, m: nat)
    requires n < Pow10(w) && m < Pow10(w)
    ensures Before(Digits(w, n), Digits(w, m)) <==> n < m
    ensures Digits(w, n) == Digits(w, m) <==> n == m
  {
    if w > 0 {
      DigitsOrder(w - 1, n / 10, m / 10);
      var x, y := [Digit(n % 10)], [Digit(m % 10)];
      var a, b := Digits(w - 1, n / 10), Digits(w - 1, m / 10);
      ColumnOrder(a, b, x, y);
      assert x[1..] == "" && y[1..] == "";
      assert Before(x, y) <==> n % 10 < m % 10;
      assert (a + x)[..w - 1] == a && (a + x)[w - 1] == x[0];
      assert (b + y)[..w - 1] == b && (b + y)[w - 1] == y[0];
    }
  }

  function ClockText(t: Stamp): string {
    Digits(2, t.hour) + (Digits(2, t.minute) + Digits(2, t.second))
  }

  function StampText(t: Stamp): (s: string)
    ensures |s| == 15
  {
    Digits(4, t.year) + (Digits(2, t.month) + (Digits(2, t.day) + ("_" + ClockText(t))))
  }

  lemma Widths()
    ensures Pow10(2) == 100 && Pow10(4) == 10000
  {
    assert Pow10(1) == 10 && Pow10(2) == 100 && Pow10(3) == 1000;
  }

  /** One fixed-width column in front of the rest. */
  lemma NumberColumn(w: nat, n: nat, m: nat, x: string, y: string)
    requires n < Pow10(w) && m < Pow10(w)
    ensures Before(Digits(w, n) + x, Digits(w, m) + y) <==> n < m || (n == m && Before(x, y))
  {
    DigitsOrder(w, n, m);
    ColumnOrder(Digits(w, n), Digits(w, m), x, y);
  }

  lemma ClockOrder(a: Stamp, b: Stamp)
    ensures Before(ClockText(a), ClockText(b)) <==>
            || a.hour < b.hour
            || (a.hour == b.hour && (a.minute < b.minute || (a.minute == b.minute && a.second < b.second)))
  {
    Widths();
    DigitsOrder(2, a.second, b.second);
    NumberColumn(2, a.minute, b.minute, Digits(2, a.second), Digits(2, b.second));
    NumberColumn(2, a.hour, b.hour,
                 Digits(2, a.minute) + Digits(2, a.second), Digits(2, b.minute) + Digits(2, b.second));
  }

  /** The order of the names is the order of the times. */
  lemma StampOrder(a: Stamp, b: Stamp)
    ensures Before(StampText(a), StampText(b)) <==> Earlier(a, b)
  {
    Widths();
    ClockOrder(a, b);
    var ta, tb := "_" + ClockText(a), "_" + ClockText(b);
    CommonPrefix("_", ClockText(a), ClockText(b));
    NumberColumn(2, a.day, b.day, ta, tb);
    NumberColumn(2, a.month, b.month, Digits(2, a.day) + ta, Digits(2, b.day) + tb);
    NumberColumn(4, a.year, b.year,
                 Digits(2, a.month) + (Digits(2, a.day) + ta), Digits(2, b.month) + (Digits(2, b.day) + tb));
  }

  /** The number a row of decimal digits denotes. */
  function Number(s: string): int {
    if s == "" then 0 else 10 * Number(s[..|s| - 1]) + (s[|s| - 1] as int - '0' as int)
  }

  lemma {:induction false} DigitsDenote(w: nat, n: nat)
    requires n < Pow10(w)
    ensures Number(Digits(w, n)) == n
  {
    if w > 0 {
      DigitsDenote(w - 1, n / 10);
      assert Digits(w, n)[..w - 1] == Digits(w - 1, n / 10);
    }
  }

  lemma ColumnsOf(a: string, b: string)
    ensures (a + b)[..|a|] == a && (a + b)[|a|..] == b
  {
  }

  /** YYYYMMDD_HHMMSS: the time can be read back column by column. */
  lemma StampLayout(t: Stamp)
    ensures var s := StampText(t);
            && Number(s[..4]) == t.year && Number(s[4..][..2]) == t.month && Number(s[4..][2..][..2]) == t.day
            && s[8] == '_'
            && s[4..][2..][2..][1..] == ClockText(t)
  {
    Widths();
    DigitsDenote(4, t.year);
    DigitsDenote(2, t.month);
    DigitsDenote(2, t.day);
    var clock := "_" + ClockText(t);
    var days := Digits(2, t.day) + clock;
    var months := Digits(2, t.month) + days;
    ColumnsOf(Digits(4, t.year), months);
    ColumnsOf(Digits(2, t.month), days);
    ColumnsOf(Digits(2, t.day), clock);
    assert clock[1..] == ClockText(t);
    assert StampText(t)[8] == months[4] == days[2] == clock[0];
  }

  lemma ClockLayout(t: Stamp)
    ensures var s := ClockText(t);
            |s| == 6 && Number(s[..2]) == t.hour && Number(s[2..][..2]) == t.minute && Number(s[2..][2..]) == t.second
  {
    Widths();
    DigitsDenote(2, t.hour);
    DigitsDenote(2, t.minute);
    DigitsDenote(2, t.second);
    ColumnsOf(Digits(2, t.hour), Digits(2, t.minute) + Digits(2, t.second));
    ColumnsOf(Digits(2, t.minute), Digits(2, t.second));
  }

  /** The base name CreateBackup gives a copy of a database with base name base. */
  function BackupName(base: string, t: Stamp): string {
    (base + ".") + (StampText(t) + ".bak")
  }

  lemma BackupNameOrder(base: string, a: Stamp, b: Stamp)
    ensures Before(BackupName(base, a), BackupName(base, b)) <==> Earlier(a, b)
    ensures Matches(base, BackupName(base, a))
  {
    CommonPrefix(base + ".", StampText(a) + ".bak", StampText(b) + ".bak");
    ColumnOrder(StampText(a), StampText(b), ".bak", ".bak");
    BeforeIsStrict(".bak", ".bak");
    StampOrder(a, b);
    var n := BackupName(base, a);
    assert n[|n| - 4..] == ".bak";
  }

  /** The text determines the time. */
  lemma StampInjective(a: Stamp, b: Stamp)
    requires StampText(a) == StampText(b)
    ensures a == b
  {
    BeforeIsStrict(StampText(a), StampText(b));
    StampOrder(a, b);
    StampOrder(b, a);
  }

  /** Two copies have the same file name only if they are of the same database and second. */
  lemma BackupNameInjective(p: string, q: string, a: Stamp, b: Stamp)
    ensures BackupName(p, a) == BackupName(q, b) <==> p == q && a == b
  {
    if BackupName(p, a) == BackupName(q, b) {
      BackupNameLayout(p, a);
      BackupNameLayout(q, b);
      assert |p| == |q|;
      var n := BackupName(p, a);
      assert p == n[..|p|] == q;
      assert StampText(a) == n[|p| + 1..|p| + 16];
      assert StampText(b) == n[|p| + 1..|p| + 16];
      StampInjective(a, b);
    }
  }

  /** The copy is a sibling of the database, under the name the cleanup looks for. */
  lemma BackupIsSibling(dir: string, base: string, t: Stamp)
    ensures BackupName(Join(dir, base), t) == Join(dir, BackupName(base, t))
  {
    if dir != "." && dir != "/" {
      assert ((dir + ("/" + base)) + ".") + (StampText(t) + ".bak") ==
             dir + ("/" + ((base + ".") + (StampText(t) + ".bak")));
    } else if dir == "/" {
      assert (("/" + base) + ".") + (StampText(t) + ".bak") == "/" + ((base + ".") + (StampText(t) + ".bak"));
    }
  }

  /** When every matching name was written by CreateBackup for this database, a backup newer
      than all the others is never cleaned away. */
  lemma NewestSurvives(was: set<string>, now: set<string>, base: string, keep: nat, newest: Stamp)
    requires keep > 0 && KeepsNewest(was, now, base, keep)
    requires BackupName(base, newest) in was
    requires forall n | n in MatchesIn(base, was) && n != BackupName(base, newest) ::
               exists t: Stamp :: n == BackupName(base, t) && Earlier(t, newest)
    ensures BackupName(base, newest) in now
  {
    var name := BackupName(base, newest);
    BackupNameOrder(base, newest, newest);
    var greater := Greater(base, was, name);
    forall m | m in greater
      ensures false
    {
      BeforeIsStrict(name, m);
      var t: Stamp :| m == BackupName(base, t) && Earlier(t, newest);
      BackupNameOrder(base, t, newest);
    }
    assert greater == {};
    SurvivesIffFewGreater(was, now, base, keep, name);
  }

  /** What a cleanup does to the copy just made: if it completes, the copy is there exactly when
      fewer than the keep count of the older matches sort after it. */
  lemma FreshCopySurvivesIff(was: set<string>, now: set<string>, base: string, keep: nat, t: Stamp)
    requires keep > 0 && OnlyOldestGone(was + {BackupName(base, t)}, now, base, keep)
    ensures BackupName(base, t) !in now ==> |Greater(base, was, BackupName(base, t))| >= keep
    ensures KeepsNewest(was + {BackupName(base, t)}, now, base, keep) ==>
              (BackupName(base, t) in now <==> |Greater(base, was, BackupName(base, t))| < keep)
  {
    var name := BackupName(base, t);
    BackupNameOrder(base, t, t);
    BeforeIsStrict(name, name);
    assert Greater(base, was + {name}, name) == Greater(base, was, name);
    if name !in now {
      GoneOnlyIfCrowded(was + {name}, now, base, keep, name);
    }
    if KeepsNewest(was + {name}, now, base, keep) {
      SurvivesIffFewGreater(was + {name}, now, base, keep, name);
    }
  }

  // ---------- backups of another database ----------

  lemma StampHasNoDot(t: Stamp)
    ensures forall i | 0 <= i < 15 :: StampText(t)[i] != '.'
  {
    var s := StampText(t);
    var clock := Digits(2, t.hour) + (Digits(2, t.minute) + Digits(2, t.second));
    assert forall i | 0 <= i < 6 :: clock[i] != '.';
    assert forall i | 0 <= i < 7 :: ("_" + clock)[i] != '.';
  }

  /** Where the dots of a backup's name are. */
  lemma BackupNameLayout(other: string, t: Stamp)
    ensures var n := BackupName(other, t);
            && |n| == |other| + 20
            && n[..|other|] == other && n[|other|] == '.'
            && n[..|other| + 16] == (other + ".") + StampText(t)
            && n[|other| + 16] == '.' && EndsWith(n, ".bak")
            && forall i | |other| < i < |n| && i != |other| + 16 :: n[i] != '.'
  {
    var n := BackupName(other, t);
    StampHasNoDot(t);
    var tail := StampText(t) + ".bak";
    assert forall i | 0 <= i < |tail| && i != 15 :: tail[i] != '.';
    assert forall i | |other| < i < |n| :: n[i] == tail[i - |other| - 1];
    assert n[|n| - 4..] == ".bak";
  }

  /** Whose backups a cleanup of base touches: those of base, of every database whose name
      continues base with a dot, and of one whose backup, without its extension, is base. */
  lemma WhoseBackupsMatch(base: string, other: string, t: Stamp)
    ensures Matches(base, BackupName(other, t)) <==>
            || other == base
            || StartsWith(other, base + ".")
            || base == (other + ".") + StampText(t)
  {
    var n := BackupName(other, t);
    BackupNameLayout(other, t);
    if StartsWith(n, base + ".") {
      assert n[|base|] == (base + ".")[|base|] == '.';
      assert base == (base + ".")[..|base|] == n[..|base|];
      if |base| < |other| {
        assert other[..|base| + 1] == n[..|base| + 1];
      }
    }
    DotAfter(n, other, |other|, base);
    DotAfter(n, (other + ".") + StampText(t), |other| + 16, base);
    if StartsWith(other, base + ".") {
      assert n[..|base| + 1] == other[..|base| + 1];
    }
  }

  lemma DotAfter(n: string, part: string, k: nat, base: string)
    requires k < |n| && n[..k] == part && n[k] == '.'
    ensures base == part ==> StartsWith(n, base + ".")
  {
    assert n[..k + 1] == n[..k] + ".";
  }

  lemma OtherBackupIsGreater(base: string, ext: string, mine: Stamp, t: Stamp)
    requires ext != "" && ext[0] > '9'
    ensures Matches(base, BackupName((base + ".") + ext, t))
    ensures Before(BackupName(base, mine), BackupName((base + ".") + ext, t))
  {
    var other := (base + ".") + ext;
    assert other[..|base| + 1] == base + ".";
    WhoseBackupsMatch(base, other, t);
    var tail := ext + ("." + (StampText(t) + ".bak"));
    assert BackupName(other, t) == (base + ".") + tail;
    CommonPrefix(base + ".", StampText(mine) + ".bak", tail);
    assert tail[0] == ext[0];
    assert (StampText(mine) + ".bak")[0] == Digits(4, mine.year)[0] <= '9';
  }

  /** A database named base plus a dot plus a letter crowds base out: with the keep count of
      its backups in the folder, cleaning up after a backup of base removes that backup,
      however new it is. */
  lemma OtherDatabaseCrowdsOut(was: set<string>, now: set<string>, base: string, keep: nat, mine: Stamp,
                               ext: string, others: set<string>)
    requires keep > 0 && KeepsNewest(was, now, base, keep)
    requires BackupName(base, mine) in was
    requires ext != "" && ext[0] > '9'
    requires others <= was && |others| >= keep
    requires forall o | o in others :: exists t: Stamp :: o == BackupName((base + ".") + ext, t)
    ensures BackupName(base, mine) !in now
  {
    var name := BackupName(base, mine);
    BackupNameOrder(base, mine, mine);
    var greater := Greater(base, was, name);
    forall o | o in others
      ensures o in greater
    {
      var t: Stamp :| o == BackupName((base + ".") + ext, t);
      OtherBackupIsGreater(base, ext, mine, t);
    }
    SubsetSize(others, greater);
    SurvivesIffFewGreater(was, now, base, keep, name);
  }
}
