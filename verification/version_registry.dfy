/**
 * The registry of installed frp versions (`frp-release/frp-version`, one
 * version per line, newest first) and the bookkeeping around it: the
 * `updateVersionFile` merge and sort, what `download-file` records after an
 * install, and the `get-frp-version` and `set-current-version` handlers.
 */
module VersionRegistry {
  import opened Wrappers
  import Text
  import Numerals
  import VersionPattern
  import FrpManage

  type FileSystem = FrpManage.FileSystem

  /** The numbers of `v(\d+)\.(\d+)\.(\d+)`, each through `parseInt`. */
  datatype Triple = Triple(major: nat, minor: nat, patch: nat)

  /** The version numbers of the leftmost `v(\d+)\.(\d+)\.(\d+)` in s, if any. */
  function Key(s: string): Option<Triple>
  {
    match VersionPattern.FindFrom(s, 0)
    case None => None
    case Some(q) =>
      VersionPattern.TripleSpelled(s, q + 1);
      var g := VersionPattern.TripleAt(s, q + 1).value;
      Some(Triple(Numerals.DigitsValue(g.major), Numerals.DigitsValue(g.minor), Numerals.DigitsValue(g.patch)))
  }

  /**
   * How an entry's version numbers are found. The sort and its lemmas take
   * it as a parameter; `updateVersionFile` uses `Key`.
   */
  type KeyOf = string -> Option<Triple>

  predicate Keyed(key: KeyOf, s: string)
  {
    key(s).Some?
  }

  function Rank(key: KeyOf, s: string): Triple
    requires Keyed(key, s)
  {
    key(s).value
  }

  /** Strictly newer: lexicographically greater on (major, minor, patch). */
  predicate Above(x: Triple, y: Triple)
  {
    x.major > y.major || (x.major == y.major && (x.minor > y.minor || (x.minor == y.minor && x.patch > y.patch)))
  }

  /** JavaScript's `x || y` on numbers: x unless it is 0. */
  function Or(x: int, y: int): int
  {
    if x != 0 then x else y
  }

  /**
   * The comparator `updateVersionFile` hands to `sort`: the differences of
   * b's and a's numbers, major first, when both match; 0 otherwise.
   */
  function Compare(key: KeyOf, a: string, b: string): int
  {
    match (key(a), key(b))
    case (Some(x), Some(y)) => Or(y.major - x.major, Or(y.minor - x.minor, y.patch - x.patch))
    case _ => 0
  }

  /**
   * Stable insertion: x goes before the first entry the comparator puts it
   * ahead of, and after every other.
   */
  function Insert(key: KeyOf, sorted: seq<string>, x: string): (r: seq<string>)
    ensures multiset(r) == multiset(sorted) + multiset{x}
  {
    if |sorted| == 0 then [x]
    else if Compare(key, x, sorted[0]) < 0 then [x] + sorted
    else
      assert sorted == [sorted[0]] + sorted[1..];
      [sorted[0]] + Insert(key, sorted[1..], x)
  }

  /**
   * `versions.sort(comparator)`, modelled as a stable sort: entries are
   * inserted one by one in their original order.
   */
  function SortBy(key: KeyOf, xs: seq<string>): (r: seq<string>)
    ensures multiset(r) == multiset(xs)
  {
    if |xs| == 0 then []
    else
      assert xs == xs[..|xs| - 1] + [xs[|xs| - 1]];
      Insert(key, SortBy(key, xs[..|xs| - 1]), xs[|xs| - 1])
  }

  /** `versions.sort(...)` with the comparator of `updateVersionFile`. */
  function SortVersions(xs: seq<string>): seq<string>
  {
    SortBy(Key, xs)
  }

  predicate AllKeyed(key: KeyOf, xs: seq<string>)
  {
    forall i :: 0 <= i < |xs| ==> Keyed(key, xs[i])
  }

  /** Newest first: no entry is newer than one before it. */
  predicate Descending(key: KeyOf, r: seq<string>)
  {
    AllKeyed(key, r) && forall i, j :: 0 <= i < j < |r| ==> !Above(Rank(key, r[j]), Rank(key, r[i]))
  }

  /** No entry of r is newer than t. */
  predicate NoneAbove(key: KeyOf, r: seq<string>, t: Triple)
  {
    AllKeyed(key, r) && forall i :: 0 <= i < |r| ==> !Above(Rank(key, r[i]), t)
  }

  /** The entries of r with version numbers t, in order. */
  function WithRank(key: KeyOf, r: seq<string>, t: Triple): (w: seq<string>)
    ensures |w| <= |r|
  {
    if |r| == 0 then []
    else (if Keyed(key, r[0]) && Rank(key, r[0]) == t then [r[0]] else []) + WithRank(key, r[1..], t)
  }

  // ---------------------------------------------------------------------------
  // The comparator and the sort

  /**
   * The comparator puts a before b exactly when both carry a version and a's
   * is newer, and it is antisymmetric.
   */
  lemma CompareMeans(key: KeyOf, a: string, b: string)
    ensures Compare(key, a, b) < 0 <==> Keyed(key, a) && Keyed(key, b) && Above(Rank(key, a), Rank(key, b))
    ensures Compare(key, a, b) > 0 <==> Keyed(key, a) && Keyed(key, b) && Above(Rank(key, b), Rank(key, a))
    ensures Compare(key, a, b) == -Compare(key, b, a)
  {
  }

  lemma DescendingCons(key: KeyOf, a: string, r: seq<string>)
    ensures Descending(key, [a] + r) <==> Keyed(key, a) && NoneAbove(key, r, Rank(key, a)) && Descending(key, r)
  {
    var s := [a] + r;
    if Keyed(key, a) && NoneAbove(key, r, Rank(key, a)) && Descending(key, r) {
      forall i, j | 0 <= i < j < |s| ensures !Above(Rank(key, s[j]), Rank(key, s[i])) {
        assert s[j] == r[j - 1];
        if i > 0 {
          assert s[i] == r[i - 1];
        }
      }
    }
    if Descending(key, s) {
      assert Keyed(key, s[0]);
      forall i | 0 <= i < |r| ensures Keyed(key, r[i]) && !Above(Rank(key, r[i]), Rank(key, a)) {
        assert r[i] == s[i + 1];
      }
      forall i, j | 0 <= i < j < |r| ensures !Above(Rank(key, r[j]), Rank(key, r[i])) {
        assert r[i] == s[i + 1] && r[j] == s[j + 1];
      }
    }
  }

  /** Inserting an entry no newer than t keeps every entry no newer than t. */
  lemma {:induction false} InsertNoneAbove(key: KeyOf, s: seq<string>, x: string, t: Triple)
    requires NoneAbove(key, s, t) && Keyed(key, x) && !Above(Rank(key, x), t)
    ensures NoneAbove(key, Insert(key, s, x), t)
  {
    if |s| > 0 && Compare(key, x, s[0]) >= 0 {
      assert s == [s[0]] + s[1..];
      NoneAboveCons(key, s[0], s[1..], t);
      InsertNoneAbove(key, s[1..], x, t);
      InsertPast(key, s, x);
      NoneAboveCons(key, s[0], Insert(key, s[1..], x), t);
    } else {
      NoneAboveCons(key, x, s, t);
      assert [x] + [] == [x];
    }
  }

  lemma NoneAboveCons(key: KeyOf, a: string, r: seq<string>, t: Triple)
    ensures NoneAbove(key, [a] + r, t) <==> Keyed(key, a) && !Above(Rank(key, a), t) && NoneAbove(key, r, t)
  {
    var s := [a] + r;
    if NoneAbove(key, s, t) {
      assert s[0] == a;
      forall i | 0 <= i < |r| ensures Keyed(key, r[i]) && !Above(Rank(key, r[i]), t) {
        assert r[i] == s[i + 1];
      }
    }
    if Keyed(key, a) && !Above(Rank(key, a), t) && NoneAbove(key, r, t) {
      forall i | 0 <= i < |s| ensures Keyed(key, s[i]) && !Above(Rank(key, s[i]), t) {
        if i > 0 {
          assert s[i] == r[i - 1];
        }
      }
    }
  }

  /** Entries below u are all below anything newer than u. */
  lemma NoneAboveWeaker(key: KeyOf, r: seq<string>, u: Triple, t: Triple)
    requires NoneAbove(key, r, u) && !Above(u, t)
    ensures NoneAbove(key, r, t)
  {
  }

  /** Inserting a versioned entry into a newest-first list keeps it newest first. */
  lemma {:induction false} InsertDescending(key: KeyOf, s: seq<string>, x: string)
    requires Descending(key, s) && Keyed(key, x)
    ensures Descending(key, Insert(key, s, x))
  {
    if |s| == 0 {
    } else {
      assert s == [s[0]] + s[1..];
      DescendingCons(key, s[0], s[1..]);
      CompareMeans(key, x, s[0]);
      if Compare(key, x, s[0]) < 0 {
        NoneAboveWeaker(key, s[1..], Rank(key, s[0]), Rank(key, x));
        assert NoneAbove(key, s, Rank(key, x));
        DescendingCons(key, x, s);
      } else {
        InsertDescending(key, s[1..], x);
        InsertNoneAbove(key, s[1..], x, Rank(key, s[0]));
        DescendingCons(key, s[0], Insert(key, s[1..], x));
      }
    }
  }

  /** When every entry carries a version, the sort lists them newest first. */
  lemma {:induction false} SortDescending(key: KeyOf, xs: seq<string>)
    requires AllKeyed(key, xs)
    ensures Descending(key, SortBy(key, xs))
  {
    if |xs| > 0 {
      var init := xs[..|xs| - 1];
      assert AllKeyed(key, init) by {
        forall i | 0 <= i < |init| ensures Keyed(key, init[i]) {
          assert init[i] == xs[i];
        }
      }
      SortDescending(key, init);
      InsertDescending(key, SortBy(key, init), xs[|xs| - 1]);
    }
  }

  lemma {:induction false} WithRankAppend(key: KeyOf, a: seq<string>, b: seq<string>, t: Triple)
    ensures WithRank(key, a + b, t) == WithRank(key, a, t) + WithRank(key, b, t)
  {
    if |a| == 0 {
      assert a + b == b;
    } else {
      assert (a + b)[1..] == a[1..] + b;
      WithRankAppend(key, a[1..], b, t);
    }
  }

  /** Nothing in a list with no entry newer than u has numbers newer than u. */
  lemma {:induction false} NoneOfRank(key: KeyOf, r: seq<string>, u: Triple, t: Triple)
    requires NoneAbove(key, r, u) && Above(t, u)
    ensures WithRank(key, r, t) == []
  {
    if |r| > 0 {
      NoneOfRank(key, r[1..], u, t);
    }
  }

  /**
   * Insertion keeps entries with equal numbers in their order: x joins the
   * entries with its numbers at their end.
   */
  lemma {:induction false} InsertStable(key: KeyOf, s: seq<string>, x: string, t: Triple)
    requires Descending(key, s) && Keyed(key, x)
    ensures WithRank(key, Insert(key, s, x), t) == WithRank(key, s, t) + (if Rank(key, x) == t then [x] else [])
  {
    if |s| > 0 {
      if Compare(key, x, s[0]) < 0 {
        InsertStableFront(key, s, x, t);
      } else {
        assert s == [s[0]] + s[1..];
        DescendingCons(key, s[0], s[1..]);
        InsertStable(key, s[1..], x, t);
        InsertPast(key, s, x);
        WithRankCons(key, s[0], Insert(key, s[1..], x), t);
        WithRankCons(key, s[0], s[1..], t);
      }
    }
  }

  /** An entry the comparator does not put ahead of the head goes after it. */
  lemma InsertPast(key: KeyOf, s: seq<string>, x: string)
    requires |s| > 0 && Compare(key, x, s[0]) >= 0
    ensures Insert(key, s, x) == [s[0]] + Insert(key, s[1..], x)
  {
  }

  lemma WithRankCons(key: KeyOf, a: string, r: seq<string>, t: Triple)
    ensures WithRank(key, [a] + r, t) == (if Keyed(key, a) && Rank(key, a) == t then [a] else []) + WithRank(key, r, t)
  {
    assert ([a] + r)[1..] == r;
  }

  /** An entry newer than the head of a newest-first list has no equal in it. */
  lemma InsertStableFront(key: KeyOf, s: seq<string>, x: string, t: Triple)
    requires Descending(key, s) && Keyed(key, x) && |s| > 0 && Compare(key, x, s[0]) < 0
    ensures WithRank(key, [x] + s, t) == WithRank(key, s, t) + (if Rank(key, x) == t then [x] else [])
  {
    CompareMeans(key, x, s[0]);
    WithRankAppend(key, [x], s, t);
    if Rank(key, x) == t {
      HeadBound(key, s);
      NoneOfRank(key, s, Rank(key, s[0]), t);
    }
  }

  /** In a newest-first list nothing is newer than the head. */
  lemma HeadBound(key: KeyOf, s: seq<string>)
    requires Descending(key, s) && |s| > 0
    ensures NoneAbove(key, s, Rank(key, s[0]))
  {
    forall i | 0 < i < |s| ensures !Above(Rank(key, s[i]), Rank(key, s[0])) {
    }
  }

  /**
   * The sort is stable: when every entry carries a version, the entries
   * with any given numbers appear in the order they had.
   */
  lemma {:induction false} SortStable(key: KeyOf, xs: seq<string>, t: Triple)
    requires AllKeyed(key, xs)
    ensures WithRank(key, SortBy(key, xs), t) == WithRank(key, xs, t)
  {
    if |xs| > 0 {
      var init := xs[..|xs| - 1];
      var x := xs[|xs| - 1];
      assert AllKeyed(key, init) by {
        forall i | 0 <= i < |init| ensures Keyed(key, init[i]) {
          assert init[i] == xs[i];
        }
      }
      SortStable(key, init, t);
      SortDescending(key, init);
      InsertStable(key, SortBy(key, init), x, t);
      SortByLast(key, xs);
      WithRankLast(key, xs, t);
    }
  }

  /** The sort inserts the last entry into the sorted rest. */
  lemma SortByLast(key: KeyOf, xs: seq<string>)
    requires |xs| > 0
    ensures SortBy(key, xs) == Insert(key, SortBy(key, xs[..|xs| - 1]), xs[|xs| - 1])
  {
  }

  /** The entries of a list with numbers t: those of all but the last, then the last if it has them. */
  lemma WithRankLast(key: KeyOf, xs: seq<string>, t: Triple)
    requires |xs| > 0 && Keyed(key, xs[|xs| - 1])
    ensures WithRank(key, xs, t)
      == WithRank(key, xs[..|xs| - 1], t) + (if Rank(key, xs[|xs| - 1]) == t then [xs[|xs| - 1]] else [])
  {
    var x := xs[|xs| - 1];
    assert xs == xs[..|xs| - 1] + [x];
    WithRankAppend(key, xs[..|xs| - 1], [x], t);
    assert [x][1..] == [];
  }

  /** An entry newer than none of the list goes at its end. */
  lemma {:induction false} InsertLast(key: KeyOf, s: seq<string>, x: string)
    requires forall i :: 0 <= i < |s| ==> Compare(key, x, s[i]) >= 0
    ensures Insert(key, s, x) == s + [x]
  {
    if |s| > 0 {
      InsertLast(key, s[1..], x);
      assert s == [s[0]] + s[1..];
    }
  }

  /** A list already newest first is left as it is. */
  lemma {:induction false} SortOfDescending(key: KeyOf, xs: seq<string>)
    requires Descending(key, xs)
    ensures SortBy(key, xs) == xs
  {
    if |xs| > 0 {
      var init := xs[..|xs| - 1];
      var x := xs[|xs| - 1];
      assert Descending(key, init) by {
        forall i, j | 0 <= i < j < |init| ensures !Above(Rank(key, init[j]), Rank(key, init[i])) {
          assert init[i] == xs[i] && init[j] == xs[j];
        }
      }
      SortOfDescending(key, init);
      forall i | 0 <= i < |init| ensures Compare(key, x, init[i]) >= 0 {
        assert init[i] == xs[i];
        CompareMeans(key, x, init[i]);
      }
      InsertLast(key, init, x);
      assert init + [x] == xs;
    }
  }

  // ---------------------------------------------------------------------------
  // The registry file

  /** Registry lines: none empty, none holding a newline. */
  predicate IsLine(s: string)
  {
    s != "" && '\n' !in s
  }

  predicate AllLines(xs: seq<string>)
  {
    forall i :: 0 <= i < |xs| ==> IsLine(xs[i])
  }

  /** `readFileSync(versionFile).split('\n').filter(Boolean)`. */
  function ParseRegistry(text: string): (r: seq<string>)
    ensures AllLines(r)
  {
    var r := Text.NonEmpty(Text.Split(text, '\n'));
    assert forall i :: 0 <= i < |r| ==> r[i] in Text.Split(text, '\n');
    r
  }

  /** The registry lines, or none when the file does not exist. */
  function ReadRegistry(fs: FileSystem, path: string): seq<string>
  {
    if path in fs then ParseRegistry(fs[path]) else []
  }

  /** Appending the new version unless it is already listed. */
  function AddVersion(versions: seq<string>, v: string): (r: seq<string>)
    ensures v in r
    ensures forall x :: x in r <==> x in versions || x == v
    ensures |r| == |versions| + (if v in versions then 0 else 1)
  {
    if v in versions then versions else versions + [v]
  }

  /** `versions.join('\n')`: no trailing newline. */
  function RegistryText(versions: seq<string>): string
  {
    Text.Join(versions, "\n")
  }

  /** The registry at path with v merged in, sorted by key, and written back. */
  function UpdateBy(key: KeyOf, fs: FileSystem, path: string, v: string): FileSystem
  {
    fs[path := RegistryText(SortBy(key, AddVersion(ReadRegistry(fs, path), v)))]
  }

  /** `updateVersionFile(versionFile, newVersion)`. */
  function UpdateVersionFile(fs: FileSystem, path: string, v: string): FileSystem
  {
    UpdateBy(Key, fs, path, v)
  }

  /** Every entry listed at most once. */
  predicate Distinct(xs: seq<string>)
  {
    forall x | x in multiset(xs) :: multiset(xs)[x] == 1
  }

  lemma {:induction false} NonEmptyKeeps(parts: seq<string>)
    requires forall i :: 0 <= i < |parts| ==> parts[i] != ""
    ensures Text.NonEmpty(parts) == parts
  {
    if |parts| > 0 {
      NonEmptyKeeps(parts[1..]);
      assert [parts[0]] + parts[1..] == parts;
    }
  }

  /** Lines without newlines, none empty, read back as written. */
  lemma RegistryRoundTrip(lines: seq<string>)
    requires AllLines(lines)
    ensures ParseRegistry(RegistryText(lines)) == lines
  {
    if |lines| == 0 {
      assert Text.Split("", '\n') == [""];
    } else {
      assert "\n" == ['\n'];
      Text.SplitJoin(lines, '\n');
      NonEmptyKeeps(lines);
    }
  }

  /** The merged list holds what the registry and the new version hold. */
  lemma MergedLinesBy(key: KeyOf, before: seq<string>, v: string)
    requires AllLines(before)
    requires IsLine(v)
    ensures var merged := SortBy(key, AddVersion(before, v));
      AllLines(merged)
  {
    var added := AddVersion(before, v);
    var merged := SortBy(key, added);
    forall i | 0 <= i < |merged| ensures IsLine(merged[i]) {
      assert merged[i] in multiset(merged);
      assert merged[i] in added;
    }
  }

  /**
   * After `updateVersionFile` the registry reads back as the old entries
   * with the new version added once, sorted: it holds exactly the old
   * entries and the new one, grows by at most one line, keeps a list
   * without repeats without repeats, and is newest first when every entry
   * carries a version.
   */
  lemma UpdateReadsBack(fs: FileSystem, path: string, v: string)
    requires IsLine(v)
    ensures var before := ReadRegistry(fs, path);
      var after := ReadRegistry(UpdateVersionFile(fs, path, v), path);
      && after == SortVersions(AddVersion(before, v))
      && (forall x :: x in after <==> x in before || x == v)
      && |after| == |before| + (if v in before then 0 else 1)
      && (Distinct(before) ==> Distinct(after))
      && (AllKeyed(Key, before) && Keyed(Key, v) ==> Descending(Key, after))
  {
    UpdateByReadsBack(Key, fs, path, v);
  }

  /** `UpdateReadsBack` for any way of finding version numbers. */
  lemma UpdateByReadsBack(key: KeyOf, fs: FileSystem, path: string, v: string)
    requires IsLine(v)
    ensures var before := ReadRegistry(fs, path);
      var after := ReadRegistry(UpdateBy(key, fs, path, v), path);
      && after == SortBy(key, AddVersion(before, v))
      && (forall x :: x in after <==> x in before || x == v)
      && |after| == |before| + (if v in before then 0 else 1)
      && (Distinct(before) ==> Distinct(after))
      && (AllKeyed(key, before) && Keyed(key, v) ==> Descending(key, after))
  {
    var before := ReadRegistry(fs, path);
    var merged := SortBy(key, AddVersion(before, v));
    MergedLinesBy(key, before, v);
    RegistryRoundTrip(merged);
    MergeFacts(key, before, v);
  }

  /** What merging a version into a list and sorting keeps, for any way of finding version numbers. */
  lemma MergeFacts(key: KeyOf, before: seq<string>, v: string)
    ensures var merged := SortBy(key, AddVersion(before, v));
      && (forall x :: x in merged <==> x in before || x == v)
      && |merged| == |before| + (if v in before then 0 else 1)
      && (Distinct(before) ==> Distinct(merged))
      && (AllKeyed(key, before) && Keyed(key, v) ==> Descending(key, merged))
  {
    var added := AddVersion(before, v);
    var merged := SortBy(key, added);
    assert multiset(merged) == multiset(added);
    forall x ensures x in merged <==> x in before || x == v {
      assert x in merged <==> x in multiset(merged);
      assert x in added <==> x in multiset(added);
    }
    assert |merged| == |multiset(merged)| == |added|;
    if Distinct(before) {
      if v !in before {
        assert multiset(added) == multiset(before) + multiset{v};
      }
    }
    if AllKeyed(key, before) && Keyed(key, v) {
      assert AllKeyed(key, added) by {
        forall i | 0 <= i < |added| ensures Keyed(key, added[i]) {
          if i >= |before| {
            assert added[i] == v;
          }
        }
      }
      SortDescending(key, added);
    }
  }

  /**
   * Recording a version a second time changes nothing when every entry
   * carries a version: it is already listed and the list is already sorted.
   */
  lemma UpdateIdempotent(fs: FileSystem, path: string, v: string)
    requires IsLine(v) && Keyed(Key, v)
    requires AllKeyed(Key, ReadRegistry(fs, path))
    ensures UpdateVersionFile(UpdateVersionFile(fs, path, v), path, v) == UpdateVersionFile(fs, path, v)
  {
    UpdateByIdempotent(Key, fs, path, v);
  }

  /** `UpdateIdempotent` for any way of finding version numbers. */
  lemma UpdateByIdempotent(key: KeyOf, fs: FileSystem, path: string, v: string)
    requires IsLine(v) && Keyed(key, v)
    requires AllKeyed(key, ReadRegistry(fs, path))
    ensures UpdateBy(key, UpdateBy(key, fs, path, v), path, v) == UpdateBy(key, fs, path, v)
  {
    var listed := SortBy(key, AddVersion(ReadRegistry(fs, path), v));
    var once := fs[path := RegistryText(listed)];
    assert once == UpdateBy(key, fs, path, v);
    assert ReadRegistry(once, path) == ParseRegistry(RegistryText(listed));
    MergeTwice(key, ReadRegistry(fs, path), v);
    assert SortBy(key, AddVersion(ReadRegistry(once, path), v)) == listed;
    RewriteSame(once, path, RegistryText(listed));
  }

  /** Writing a file with the text it already holds changes nothing. */
  lemma RewriteSame(fs: FileSystem, path: string, text: string)
    requires path in fs && fs[path] == text
    ensures fs[path := text] == fs
  {
  }

  /** Merging the same version into the written list gives that list again. */
  lemma MergeTwice(key: KeyOf, before: seq<string>, v: string)
    requires AllLines(before)
    requires IsLine(v)
    requires AllKeyed(key, before) && Keyed(key, v)
    ensures var listed := SortBy(key, AddVersion(before, v));
      SortBy(key, AddVersion(ParseRegistry(RegistryText(listed)), v)) == listed
  {
    var listed := SortBy(key, AddVersion(before, v));
    MergeFacts(key, before, v);
    MergedLinesBy(key, before, v);
    RegistryRoundTrip(listed);
    ResortSame(key, listed, v);
  }

  /** Merging a listed version into a newest-first list gives the list back. */
  lemma ResortSame(key: KeyOf, listed: seq<string>, v: string)
    requires Descending(key, listed) && v in listed
    ensures SortBy(key, AddVersion(listed, v)) == listed
  {
    SortOfDescending(key, listed);
  }

  // ---------------------------------------------------------------------------
  // Installing, reading and choosing the current version

  const NoVersionInUrl := "无法从URL中提取版本号"

  /**
   * v merged into the registry at one path, sorted by key, and written as
   * the current version at another.
   */
  function RecordBy(key: KeyOf, fs: FileSystem, registry: string, current: string, v: string): FileSystem
  {
    UpdateBy(key, fs, registry, v)[current := v]
  }

  /** Every file other than a and b exists in after exactly when in before, with the same text. */
  ghost predicate OnlyWrites(before: FileSystem, after: FileSystem, a: string, b: string)
  {
    forall p :: p != a && p != b ==> (p in after <==> p in before) && (p in before ==> after[p] == before[p])
  }

  /**
   * What `download-file` writes once it knows the version v: v merged into
   * the registry, and v as the current version.
   */
  function Record(fs: FileSystem, home: string, platform: string, v: string): FileSystem
  {
    RecordBy(Key, fs, FrpManage.RegistryPath(home, platform), FrpManage.CurrentVersionPath(home, platform), v)
  }

  /**
   * The bookkeeping of `download-file` once the archive is unpacked: the
   * version from the URL is recorded. A URL without a version is an error.
   */
  function Install(fs: FileSystem, home: string, platform: string, url: string): Result<FileSystem, string>
  {
    match VersionPattern.ExtractVersion(url)
    case None => Failure(NoVersionInUrl)
    case Some(v) => Success(Record(fs, home, platform, v))
  }

  /** What `get-frp-version` returns. */
  datatype FrpVersions = FrpVersions(versions: Option<string>, currentVersion: Option<string>)

  /**
   * `get-frp-version`: the registry text as it is and the current version
   * trimmed, each null when its file is missing.
   */
  function GetFrpVersion(fs: FileSystem, home: string, platform: string): FrpVersions
  {
    var registry := FrpManage.RegistryPath(home, platform);
    var current := FrpManage.CurrentVersionPath(home, platform);
    FrpVersions(
      if registry in fs then Some(fs[registry]) else None,
      if current in fs then Some(Text.Trim(fs[current])) else None)
  }

  /** `set-current-version`: the string is written as given, unchecked. */
  function SetCurrentVersion(fs: FileSystem, home: string, platform: string, version: string): FileSystem
  {
    fs[FrpManage.CurrentVersionPath(home, platform) := version]
  }

  /** A successful install records the version of its URL. */
  lemma InstallRecords(fs: FileSystem, home: string, platform: string, url: string)
    requires Install(fs, home, platform, url).Success?
    ensures VersionPattern.ExtractVersion(url).Some?
    ensures Install(fs, home, platform, url).value == Record(fs, home, platform, VersionPattern.ExtractVersion(url).value)
  {
  }

  /** The version an install takes from its URL is valid and fit for a registry line. */
  lemma InstalledVersion(url: string)
    requires VersionPattern.ExtractVersion(url).Some?
    ensures var v := VersionPattern.ExtractVersion(url).value;
      VersionPattern.IsValidVersion(v) && IsLine(v) && Text.Trim(v) == v && Keyed(Key, v)
  {
    var v := VersionPattern.ExtractVersion(url).value;
    VersionPattern.ExtractedVersion(url);
    VersionPattern.ValidVersionText(v);
    Text.TrimOfTrimmed(v);
    VersionPattern.ExtractOwnVersion(v);
  }

  /** The registry a record writes reads back as the merged, sorted list, which holds v. */
  lemma RecordByReads(key: KeyOf, fs: FileSystem, registry: string, current: string, v: string)
    requires IsLine(v) && registry != current
    ensures var after := ReadRegistry(RecordBy(key, fs, registry, current, v), registry);
      after == SortBy(key, AddVersion(ReadRegistry(fs, registry), v)) && v in after
  {
    ReadBackBy(key, fs, registry, v);
    ReadPastWrite(UpdateBy(key, fs, registry, v), registry, current, v);
  }

  /** Writing another file leaves the registry as it reads. */
  lemma ReadPastWrite(fs: FileSystem, registry: string, other: string, text: string)
    requires registry != other
    ensures ReadRegistry(fs[other := text], registry) == ReadRegistry(fs, registry)
  {
    assert (registry in fs[other := text]) == (registry in fs);
  }

  /** A record touches no file but the registry and the current-version file. */
  lemma RecordByFrame(key: KeyOf, fs: FileSystem, registry: string, current: string, v: string)
    ensures var after := RecordBy(key, fs, registry, current, v);
      OnlyWrites(fs, after, registry, current)
  {
  }

  /** The registry written by an update reads back as the merged, sorted list, which holds v. */
  lemma ReadBackBy(key: KeyOf, fs: FileSystem, path: string, v: string)
    requires IsLine(v)
    ensures var after := ReadRegistry(UpdateBy(key, fs, path, v), path);
      after == SortBy(key, AddVersion(ReadRegistry(fs, path), v)) && v in after
  {
    var before := ReadRegistry(fs, path);
    var merged := SortBy(key, AddVersion(before, v));
    MergedLinesBy(key, before, v);
    RegistryRoundTrip(merged);
    assert v in multiset(merged);
  }

  /**
   * Recording v sets the current version to v, merges v into the registry,
   * and changes no other file.
   */
  lemma RecordOutcome(fs: FileSystem, home: string, platform: string, v: string)
    requires IsLine(v)
    ensures var after := Record(fs, home, platform, v);
      var registry := FrpManage.RegistryPath(home, platform);
      var current := FrpManage.CurrentVersionPath(home, platform);
      && current in after && after[current] == v
      && ReadRegistry(after, registry) == SortVersions(AddVersion(ReadRegistry(fs, registry), v))
      && v in ReadRegistry(after, registry)
      && OnlyWrites(fs, after, registry, current)
  {
    var registry := FrpManage.RegistryPath(home, platform);
    var current := FrpManage.CurrentVersionPath(home, platform);
    FrpManage.PathsDistinct(home, platform, v, FrpManage.Frps);
    RecordByCurrent(Key, fs, registry, current, v);
    RecordByReads(Key, fs, registry, current, v);
    RecordByFrame(Key, fs, registry, current, v);
  }

  /**
   * An install fails, with "无法从URL中提取版本号", exactly when the URL
   * holds no version. Otherwise the version is merged into the registry,
   * becomes the current version, and no other file changes.
   */
  lemma InstallOutcome(fs: FileSystem, home: string, platform: string, url: string)
    ensures Install(fs, home, platform, url).Failure? <==> VersionPattern.ExtractVersion(url).None?
    ensures Install(fs, home, platform, url).Failure? ==> Install(fs, home, platform, url).error == NoVersionInUrl
    ensures Install(fs, home, platform, url).Success? ==>
      var v := VersionPattern.ExtractVersion(url).value;
      var after := Install(fs, home, platform, url).value;
      var registry := FrpManage.RegistryPath(home, platform);
      var current := FrpManage.CurrentVersionPath(home, platform);
      && current in after && after[current] == v
      && ReadRegistry(after, registry) == SortVersions(AddVersion(ReadRegistry(fs, registry), v))
      && v in ReadRegistry(after, registry)
      && OnlyWrites(fs, after, registry, current)
  {
    InstallCases(fs, home, platform, url);
    if VersionPattern.ExtractVersion(url).Some? {
      InstalledLine(url);
      RecordOutcome(fs, home, platform, VersionPattern.ExtractVersion(url).value);
    }
  }

  lemma InstalledLine(url: string)
    requires VersionPattern.ExtractVersion(url).Some?
    ensures IsLine(VersionPattern.ExtractVersion(url).value)
  {
    InstalledVersion(url);
  }

  lemma InstallCases(fs: FileSystem, home: string, platform: string, url: string)
    ensures VersionPattern.ExtractVersion(url).None? ==> Install(fs, home, platform, url) == Failure(NoVersionInUrl)
    ensures VersionPattern.ExtractVersion(url).Some? ==>
      Install(fs, home, platform, url) == Success(Record(fs, home, platform, VersionPattern.ExtractVersion(url).value))
  {
  }

  /**
   * After recording a valid version, `checkCurrentVersion` reports it, and
   * its executables as present exactly when they were before.
   */
  lemma RecordThenCheck(fs: FileSystem, home: string, platform: string, v: string)
    requires VersionPattern.IsValidVersion(v) && Text.Trim(v) == v
    ensures FrpManage.CheckCurrentVersion(Record(fs, home, platform, v), home, platform)
      == FrpManage.VersionStatus(true, Some(v),
           FrpManage.ExecutablePath(home, platform, v, FrpManage.Frps) in fs,
           FrpManage.ExecutablePath(home, platform, v, FrpManage.Frpc) in fs)
  {
    var registry := FrpManage.RegistryPath(home, platform);
    var current := FrpManage.CurrentVersionPath(home, platform);
    var after := Record(fs, home, platform, v);
    FrpManage.PathsDistinct(home, platform, v, FrpManage.Frps);
    FrpManage.PathsDistinct(home, platform, v, FrpManage.Frpc);
    RecordByCurrent(Key, fs, registry, current, v);
    RecordByKeeps(Key, fs, registry, current, v, FrpManage.ExecutablePath(home, platform, v, FrpManage.Frps));
    RecordByKeeps(Key, fs, registry, current, v, FrpManage.ExecutablePath(home, platform, v, FrpManage.Frpc));
    FrpManage.CheckDecision(after, home, platform);
  }

  lemma RecordByCurrent(key: KeyOf, fs: FileSystem, registry: string, current: string, v: string)
    ensures current in RecordBy(key, fs, registry, current, v) && RecordBy(key, fs, registry, current, v)[current] == v
    ensures registry in RecordBy(key, fs, registry, current, v)
  {
  }

  lemma RecordByKeeps(key: KeyOf, fs: FileSystem, registry: string, current: string, v: string, p: string)
    requires p != registry && p != current
    ensures p in RecordBy(key, fs, registry, current, v) <==> p in fs
  {
  }

  /**
   * After an install, `checkCurrentVersion` reports the installed version,
   * and its executables as present exactly when they were before.
   */
  lemma InstallThenCheck(fs: FileSystem, home: string, platform: string, url: string)
    requires Install(fs, home, platform, url).Success?
    ensures var v := VersionPattern.ExtractVersion(url).value;
      FrpManage.CheckCurrentVersion(Install(fs, home, platform, url).value, home, platform)
        == FrpManage.VersionStatus(true, Some(v),
             FrpManage.ExecutablePath(home, platform, v, FrpManage.Frps) in fs,
             FrpManage.ExecutablePath(home, platform, v, FrpManage.Frpc) in fs)
  {
    InstallRecords(fs, home, platform, url);
    InstalledVersion(url);
    RecordThenCheck(fs, home, platform, VersionPattern.ExtractVersion(url).value);
  }

  /** After recording v, `get-frp-version` returns v and the merged registry. */
  lemma RecordThenGet(fs: FileSystem, home: string, platform: string, v: string)
    requires IsLine(v) && Text.Trim(v) == v
    ensures var got := GetFrpVersion(Record(fs, home, platform, v), home, platform);
      var registry := FrpManage.RegistryPath(home, platform);
      && got.currentVersion == Some(v)
      && got.versions.Some?
      && ParseRegistry(got.versions.value) == SortVersions(AddVersion(ReadRegistry(fs, registry), v))
  {
    var registry := FrpManage.RegistryPath(home, platform);
    var current := FrpManage.CurrentVersionPath(home, platform);
    FrpManage.PathsDistinct(home, platform, v, FrpManage.Frps);
    RecordByCurrent(Key, fs, registry, current, v);
    RecordByReads(Key, fs, registry, current, v);
    GetReads(Record(fs, home, platform, v), home, platform);
  }

  /** `get-frp-version` reports the registry text exactly when the file exists, and the current version trimmed. */
  lemma GetReads(fs: FileSystem, home: string, platform: string)
    ensures var got := GetFrpVersion(fs, home, platform);
      var registry := FrpManage.RegistryPath(home, platform);
      var current := FrpManage.CurrentVersionPath(home, platform);
      && (got.versions.Some? <==> registry in fs)
      && (got.versions.Some? ==> ParseRegistry(got.versions.value) == ReadRegistry(fs, registry))
      && (got.currentVersion.Some? <==> current in fs)
      && (got.currentVersion.Some? ==> got.currentVersion.value == Text.Trim(fs[current]))
  {
  }

  /** After an install, `get-frp-version` returns the installed version and the merged registry. */
  lemma InstallThenGet(fs: FileSystem, home: string, platform: string, url: string)
    requires Install(fs, home, platform, url).Success?
    ensures var v := VersionPattern.ExtractVersion(url).value;
      var got := GetFrpVersion(Install(fs, home, platform, url).value, home, platform);
      var registry := FrpManage.RegistryPath(home, platform);
      && got.currentVersion == Some(v)
      && got.versions.Some?
      && ParseRegistry(got.versions.value) == SortVersions(AddVersion(ReadRegistry(fs, registry), v))
  {
    InstallRecords(fs, home, platform, url);
    InstalledVersion(url);
    RecordThenGet(fs, home, platform, VersionPattern.ExtractVersion(url).value);
  }

  /** Recording a version twice is recording it once, when every registry entry carries a version. */
  lemma RecordTwice(fs: FileSystem, home: string, platform: string, v: string)
    requires IsLine(v) && Keyed(Key, v)
    requires AllKeyed(Key, ReadRegistry(fs, FrpManage.RegistryPath(home, platform)))
    ensures Record(Record(fs, home, platform, v), home, platform, v) == Record(fs, home, platform, v)
  {
    FrpManage.PathsDistinct(home, platform, v, FrpManage.Frps);
    RecordByTwice(Key, fs, FrpManage.RegistryPath(home, platform), FrpManage.CurrentVersionPath(home, platform), v);
  }

  /** `RecordTwice` for any two distinct paths and any way of finding version numbers. */
  lemma RecordByTwice(key: KeyOf, fs: FileSystem, registry: string, current: string, v: string)
    requires IsLine(v) && Keyed(key, v) && registry != current
    requires AllKeyed(key, ReadRegistry(fs, registry))
    ensures RecordBy(key, RecordBy(key, fs, registry, current, v), registry, current, v) == RecordBy(key, fs, registry, current, v)
  {
    var once := UpdateBy(key, fs, registry, v);
    var after := once[current := v];
    var again := RegistryText(SortBy(key, AddVersion(ReadRegistry(once, registry), v)));
    UpdateByIdempotent(key, fs, registry, v);
    ReadPastWrite(once, registry, current, v);
    SwapWrites(once, current, v, registry, again);
    WriteTwice(once, current, v);
  }

  lemma SwapWrites<K, V>(m: map<K, V>, a: K, x: V, b: K, y: V)
    requires a != b
    ensures m[a := x][b := y] == m[b := y][a := x]
  {
  }

  lemma WriteTwice<K, V>(m: map<K, V>, a: K, x: V)
    ensures m[a := x][a := x] == m[a := x]
  {
  }

  /**
   * Installing from the same URL twice leaves the files as the first install
   * did, when every registry entry carries a version.
   */
  lemma InstallTwice(fs: FileSystem, home: string, platform: string, url: string)
    requires Install(fs, home, platform, url).Success?
    requires AllKeyed(Key, ReadRegistry(fs, FrpManage.RegistryPath(home, platform)))
    ensures Install(Install(fs, home, platform, url).value, home, platform, url) == Install(fs, home, platform, url)
  {
    InstallRecords(fs, home, platform, url);
    InstalledVersion(url);
    RecordTwice(fs, home, platform, VersionPattern.ExtractVersion(url).value);
  }

  /**
   * `set-current-version` writes the string unchecked; `get-frp-version`
   * then reports it trimmed and the registry as before, and
   * `checkCurrentVersion` accepts it exactly when its trimmed form is valid.
   */
  lemma SetThenRead(fs: FileSystem, home: string, platform: string, version: string)
    ensures var after := SetCurrentVersion(fs, home, platform, version);
      && after[FrpManage.CurrentVersionPath(home, platform)] == version
      && GetFrpVersion(after, home, platform)
        == FrpVersions(GetFrpVersion(fs, home, platform).versions, Some(Text.Trim(version)))
      && (FrpManage.CheckCurrentVersion(after, home, platform).hasVersion <==>
            VersionPattern.IsValidVersion(Text.Trim(version)))
  {
    FrpManage.PathsDistinct(home, platform, version, FrpManage.Frps);
  }

  /**
   * Writing back the version `checkCurrentVersion` reports leaves the report
   * as it was, executables included: the check and `set-current-version`
   * agree on what the current version is.
   */
  lemma SetReportedKeepsCheck(fs: FileSystem, home: string, platform: string)
    requires FrpManage.CheckCurrentVersion(fs, home, platform).hasVersion
    ensures var r := FrpManage.CheckCurrentVersion(fs, home, platform);
      FrpManage.CheckCurrentVersion(SetCurrentVersion(fs, home, platform, r.version.value), home, platform) == r
  {
    var r := FrpManage.CheckCurrentVersion(fs, home, platform);
    var v := r.version.value;
    FrpManage.CheckDecision(fs, home, platform);
    Text.TrimIsTrimmed(fs[FrpManage.CurrentVersionPath(home, platform)]);
    Text.TrimOfTrimmed(v);
    FrpManage.PathsDistinct(home, platform, v, FrpManage.Frps);
    FrpManage.PathsDistinct(home, platform, v, FrpManage.Frpc);
    FrpManage.CheckDecision(SetCurrentVersion(fs, home, platform, v), home, platform);
  }
}
