/**
 * Updater.GetAvailableUpdates (UpdateManager/Updater.cs): the manifest is stable-sorted by
 * MinimumVersion (LINQ OrderBy) and then filtered to the entries whose MinimumVersion is at
 * least the installed version (LINQ Where).
 */
module Resolver {
  import opened Domain

  predicate SortedByMinimumVersion(s: seq<UpdateInfo>) {
    forall i, j :: 0 <= i < j < |s| ==> s[i].minimumVersion <= s[j].minimumVersion
  }

  /** The entries of `s` whose MinimumVersion is `k`, in the order of `s`. */
  function WithMinimumVersion(s: seq<UpdateInfo>, k: nat): seq<UpdateInfo> {
    if s == [] then []
    else (if s[0].minimumVersion == k then [s[0]] else []) + WithMinimumVersion(s[1..], k)
  }

  /** Insertion of `x` in front of the first entry whose key is not below its own. */
  function Insert(x: UpdateInfo, s: seq<UpdateInfo>): (r: seq<UpdateInfo>)
    ensures multiset(r) == multiset(s) + multiset{x}
    ensures forall y :: y in r <==> y == x || y in s
  {
    if s == [] || x.minimumVersion <= s[0].minimumVersion then [x] + s
    else
      assert s == [s[0]] + s[1..];
      [s[0]] + Insert(x, s[1..])
  }

  /** OrderBy(x => x.MinimumVersion): a stable sort, written as an insertion sort. */
  function SortByMinimumVersion(s: seq<UpdateInfo>): (r: seq<UpdateInfo>)
    ensures SortedByMinimumVersion(r)
    ensures multiset(r) == multiset(s)
  {
    if s == [] then []
    else
      assert s == [s[0]] + s[1..];
      var rest := SortByMinimumVersion(s[1..]);
      InsertSorted(s[0], rest);
      Insert(s[0], rest)
  }

  /** Where(x => x.MinimumVersion >= currentVersion). */
  function AtOrAbove(s: seq<UpdateInfo>, currentVersion: nat): (r: seq<UpdateInfo>)
    ensures |r| <= |s|
    ensures forall x :: x in r <==> x in s && x.minimumVersion >= currentVersion
  {
    if s == [] then []
    else (if s[0].minimumVersion >= currentVersion then [s[0]] else []) + AtOrAbove(s[1..], currentVersion)
  }

  /**
   * GetAvailableUpdates: the result is sorted by MinimumVersion and every selected entry has
   * MinimumVersion at least the installed version. Which entries are selected, and in what
   * order among equal keys, is stated by AvailableUpdatesSelectsExactly and
   * AvailableUpdatesIsStable.
   */
  function AvailableUpdates(manifest: seq<UpdateInfo>, currentVersion: nat): (r: seq<UpdateInfo>)
    ensures SortedByMinimumVersion(r)
    ensures forall x :: x in r ==> x.minimumVersion >= currentVersion
  {
    var sorted := SortByMinimumVersion(manifest);
    AtOrAboveSorted(sorted, currentVersion);
    AtOrAbove(sorted, currentVersion)
  }

  /**
   * Exactly the manifest entries with MinimumVersion >= currentVersion are selected, each as
   * often as the manifest lists it: nothing lost, nothing duplicated.
   */
  lemma AvailableUpdatesSelectsExactly(manifest: seq<UpdateInfo>, currentVersion: nat)
    ensures var r := AvailableUpdates(manifest, currentVersion);
            multiset(r) == multiset(AtOrAbove(manifest, currentVersion)) &&
            forall x :: x in r <==> x in manifest && x.minimumVersion >= currentVersion
  {
    var sorted := SortByMinimumVersion(manifest);
    var r := AvailableUpdates(manifest, currentVersion);
    var expected := AtOrAbove(manifest, currentVersion);
    assert r == AtOrAbove(sorted, currentVersion);
    forall x ensures multiset(r)[x] == multiset(expected)[x] {
      AtOrAboveCount(sorted, currentVersion, x);
      AtOrAboveCount(manifest, currentVersion, x);
    }
    assert multiset(r) == multiset(expected);
    forall x ensures x in r <==> x in manifest && x.minimumVersion >= currentVersion {
      AtOrAboveCount(manifest, currentVersion, x);
      assert x in r <==> x in multiset(r);
      assert x in manifest <==> x in multiset(manifest);
    }
  }

  /**
   * The sort is stable: the selected entries with a given MinimumVersion appear in manifest
   * order, and none are selected for a key below the installed version.
   */
  lemma AvailableUpdatesIsStable(manifest: seq<UpdateInfo>, currentVersion: nat, k: nat)
    ensures WithMinimumVersion(AvailableUpdates(manifest, currentVersion), k) ==
            if k >= currentVersion then WithMinimumVersion(manifest, k) else []
  {
    AtOrAboveWithMinimumVersion(SortByMinimumVersion(manifest), currentVersion, k);
    SortKeepsOrderWithin(manifest, k);
  }

  // ---------------------------------------------------------------------------------------
  // Lemmas behind AvailableUpdates

  lemma {:induction false} InsertSorted(x: UpdateInfo, s: seq<UpdateInfo>)
    requires SortedByMinimumVersion(s)
    ensures SortedByMinimumVersion(Insert(x, s))
  {
    if s != [] && x.minimumVersion > s[0].minimumVersion {
      var rest := Insert(x, s[1..]);
      InsertSorted(x, s[1..]);
      forall j | 0 <= j < |rest|
        ensures s[0].minimumVersion <= rest[j].minimumVersion
      {
        assert rest[j] in rest;
      }
      var r := [s[0]] + rest;
      forall i, j | 0 <= i < j < |r|
        ensures r[i].minimumVersion <= r[j].minimumVersion
      {
        if i > 0 {
          assert r[i] == rest[i - 1] && r[j] == rest[j - 1];
        }
      }
    }
  }

  lemma {:induction false} AtOrAboveSorted(s: seq<UpdateInfo>, currentVersion: nat)
    requires SortedByMinimumVersion(s)
    ensures SortedByMinimumVersion(AtOrAbove(s, currentVersion))
    ensures forall x :: x in AtOrAbove(s, currentVersion) ==> x in s && x.minimumVersion >= currentVersion
  {
    if s != [] {
      AtOrAboveSorted(s[1..], currentVersion);
    }
  }

  /** Filtering keeps each qualifying entry as often as the input has it, and no other. */
  lemma {:induction false} AtOrAboveCount(s: seq<UpdateInfo>, currentVersion: nat, x: UpdateInfo)
    ensures multiset(AtOrAbove(s, currentVersion))[x] ==
            if x.minimumVersion >= currentVersion then multiset(s)[x] else 0
  {
    if s != [] {
      AtOrAboveCount(s[1..], currentVersion, x);
      assert s == [s[0]] + s[1..];
      var head := if s[0].minimumVersion >= currentVersion then [s[0]] else [];
      assert multiset(AtOrAbove(s, currentVersion)) == multiset(head) + multiset(AtOrAbove(s[1..], currentVersion));
    }
  }

  lemma {:induction false} AtOrAboveWithMinimumVersion(s: seq<UpdateInfo>, currentVersion: nat, k: nat)
    ensures WithMinimumVersion(AtOrAbove(s, currentVersion), k) ==
            if k >= currentVersion then WithMinimumVersion(s, k) else []
  {
    if s != [] {
      AtOrAboveWithMinimumVersion(s[1..], currentVersion, k);
      var head := if s[0].minimumVersion >= currentVersion then [s[0]] else [];
      WithMinimumVersionAppend(head, AtOrAbove(s[1..], currentVersion), k);
    }
  }

  lemma {:induction false} WithMinimumVersionAppend(a: seq<UpdateInfo>, b: seq<UpdateInfo>, k: nat)
    ensures WithMinimumVersion(a + b, k) == WithMinimumVersion(a, k) + WithMinimumVersion(b, k)
  {
    if a == [] {
      assert a + b == b;
    } else {
      var head := if a[0].minimumVersion == k then [a[0]] else [];
      assert (a + b)[0] == a[0];
      assert (a + b)[1..] == a[1..] + b;
      WithMinimumVersionAppend(a[1..], b, k);
      calc {
        WithMinimumVersion(a + b, k);
        head + WithMinimumVersion(a[1..] + b, k);
        head + (WithMinimumVersion(a[1..], k) + WithMinimumVersion(b, k));
        (head + WithMinimumVersion(a[1..], k)) + WithMinimumVersion(b, k);
      }
    }
  }

  /** Inserting `x` puts it first among the entries with its key: the sort is stable. */
  lemma {:induction false} InsertKeepsOrderWithin(x: UpdateInfo, s: seq<UpdateInfo>, k: nat)
    ensures WithMinimumVersion(Insert(x, s), k) ==
            (if x.minimumVersion == k then [x] else []) + WithMinimumVersion(s, k)
  {
    if s == [] || x.minimumVersion <= s[0].minimumVersion {
      assert ([x] + s)[1..] == s;
    } else {
      InsertKeepsOrderWithin(x, s[1..], k);
      assert ([s[0]] + Insert(x, s[1..]))[1..] == Insert(x, s[1..]);
    }
  }

  /** Sorting keeps the manifest order among entries with the same MinimumVersion. */
  lemma {:induction false} SortKeepsOrderWithin(s: seq<UpdateInfo>, k: nat)
    ensures WithMinimumVersion(SortByMinimumVersion(s), k) == WithMinimumVersion(s, k)
  {
    if s != [] {
      SortKeepsOrderWithin(s[1..], k);
      InsertKeepsOrderWithin(s[0], SortByMinimumVersion(s[1..]), k);
    }
  }

  /** A manifest that is already sorted is left as it is, so re-sorting the stored list is a no-op. */
  lemma {:induction false} SortOfSortedIsIdentity(s: seq<UpdateInfo>)
    requires SortedByMinimumVersion(s)
    ensures SortByMinimumVersion(s) == s
  {
    if s != [] {
      SortOfSortedIsIdentity(s[1..]);
      assert s == [s[0]] + s[1..];
    }
  }

  lemma SortIdempotent(s: seq<UpdateInfo>)
    ensures SortByMinimumVersion(SortByMinimumVersion(s)) == SortByMinimumVersion(s)
  {
    SortOfSortedIsIdentity(SortByMinimumVersion(s));
  }

  /** Nothing is available exactly when every manifest entry is below the installed version. */
  lemma NoneAvailable(manifest: seq<UpdateInfo>, currentVersion: nat)
    ensures AvailableUpdates(manifest, currentVersion) == [] <==>
            forall x :: x in manifest ==> x.minimumVersion < currentVersion
  {
    var r := AvailableUpdates(manifest, currentVersion);
    AvailableUpdatesSelectsExactly(manifest, currentVersion);
    if r != [] {
      assert r[0] in r;
    }
  }

  /**
   * Sortedness and per-key order pin the result down: any sequence that is sorted by
   * MinimumVersion and lists, for each key, the same entries in the same order, is it.
   */
  lemma {:induction false} SortedWithSameKeyOrderIsEqual(a: seq<UpdateInfo>, b: seq<UpdateInfo>)
    requires SortedByMinimumVersion(a) && SortedByMinimumVersion(b)
    requires forall k: nat :: WithMinimumVersion(a, k) == WithMinimumVersion(b, k)
    ensures a == b
  {
    if a == [] && b == [] {
    } else if a == [] {
      WithMinimumVersionOfHead(b);
      assert false;
    } else if b == [] {
      WithMinimumVersionOfHead(a);
      assert false;
    } else if a[0].minimumVersion < b[0].minimumVersion {
      WithMinimumVersionBelowHead(b, a[0].minimumVersion);
      assert false;
    } else if b[0].minimumVersion < a[0].minimumVersion {
      WithMinimumVersionBelowHead(a, b[0].minimumVersion);
      assert false;
    } else {
      var ka := a[0].minimumVersion;
      assert a[0] == WithMinimumVersion(a, ka)[0] == WithMinimumVersion(b, ka)[0] == b[0];
      forall k: nat ensures WithMinimumVersion(a[1..], k) == WithMinimumVersion(b[1..], k) {
        if k == ka {
          assert WithMinimumVersion(a[1..], k) == WithMinimumVersion(a, k)[1..];
          assert WithMinimumVersion(b[1..], k) == WithMinimumVersion(b, k)[1..];
        } else {
          assert WithMinimumVersion(a, k) == WithMinimumVersion(a[1..], k);
          assert WithMinimumVersion(b, k) == WithMinimumVersion(b[1..], k);
        }
      }
      SortedWithSameKeyOrderIsEqual(a[1..], b[1..]);
      assert a == [a[0]] + a[1..];
      assert b == [b[0]] + b[1..];
    }
  }

  /** A non-empty sequence has at least its first entry under the first entry's key. */
  lemma WithMinimumVersionOfHead(s: seq<UpdateInfo>)
    requires s != []
    ensures WithMinimumVersion(s, s[0].minimumVersion) != []
  {
  }

  /** In a sorted sequence no entry has a key below the first entry's. */
  lemma {:induction false} WithMinimumVersionBelowHead(s: seq<UpdateInfo>, k: nat)
    requires SortedByMinimumVersion(s) && s != [] && k < s[0].minimumVersion
    ensures WithMinimumVersion(s, k) == []
  {
    if |s| > 1 {
      WithMinimumVersionBelowHead(s[1..], k);
    }
  }
}
