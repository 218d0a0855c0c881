/** Marking the packages to download: the marked ones and everything they require, over a graph that may have cycles. */
module PackageClosure {
  import opened Prelude

  class Package {
    var needsDownload: bool
    const requirements: seq<string>

    constructor (needsDownload: bool, requirements: seq<string>)
      ensures this.needsDownload == needsDownload && this.requirements == requirements
    {
      this.needsDownload := needsDownload;
      this.requirements := requirements;
    }
  }

  type Packages = map<string, Package>

  /** One object for each name. */
  ghost predicate Distinct(packages: Packages) {
    forall a, b :: a in packages && b in packages && packages[a] == packages[b] ==> a == b
  }

  ghost function Objects(packages: Packages): set<object> {
    set n | n in packages :: packages[n]
  }

  ghost function Marked(packages: Packages): set<string>
    reads Objects(packages)
  {
    set n | n in packages && packages[n].needsDownload
  }

  // ---------------------------------------------------------------- what is required

  predicate Requires(packages: Packages, a: string, b: string) {
    a in packages && b in packages && b in packages[a].requirements
  }

  ghost predicate Closed(packages: Packages, s: set<string>) {
    forall a, b :: a in s && Requires(packages, a, b) ==> b in s
  }

  /** s is the least closed set that contains the marked packages. */
  ghost predicate LeastClosed(packages: Packages, marked: set<string>, s: set<string>) {
    marked <= s && Closed(packages, s) && forall t :: marked <= t && Closed(packages, t) ==> s <= t
  }

  /** A chain of requirements from a marked package to n. */
  ghost predicate Chain(packages: Packages, marked: set<string>, path: seq<string>, n: string) {
    && path != [] && path[0] in marked && path[|path| - 1] == n
    && forall i :: 0 <= i < |path| - 1 ==> Requires(packages, path[i], path[i + 1])
  }

  lemma {:induction false} ChainStays(packages: Packages, marked: set<string>, s: set<string>, path: seq<string>, n: string)
    requires marked <= s && Closed(packages, s) && Chain(packages, marked, path, n)
    ensures n in s
    decreases |path|
  {
    if |path| > 1 {
      var k := |path| - 1;
      ChainStays(packages, marked, s, path[..k], path[k - 1]);
      assert Requires(packages, path[k - 1], path[k - 1 + 1]);
    }
  }

  /** The least closed set consists of the packages a chain of requirements leads to from a marked one; so it does not
      depend on the order in which packages and requirements are listed. */
  lemma LeastClosedIsReachable(packages: Packages, marked: set<string>, s: set<string>)
    requires LeastClosed(packages, marked, s) && marked <= packages.Keys
    ensures forall n :: n in s <==> exists path :: Chain(packages, marked, path, n)
  {
    var t := set n | n in packages.Keys && exists path :: Chain(packages, marked, path, n);
    forall n | n in marked ensures n in t {
      assert Chain(packages, marked, [n], n);
    }
    forall a, b | a in t && Requires(packages, a, b) ensures b in t {
      var path :| Chain(packages, marked, path, a);
      assert Chain(packages, marked, path + [b], b);
    }
    assert s <= t;
    forall n, path | Chain(packages, marked, path, n) ensures n in s {
      ChainStays(packages, marked, s, path, n);
    }
  }

  /** What the packages of `added` require is in `all`. */
  ghost predicate Satisfied(packages: Packages, added: set<string>, all: set<string>) {
    forall a, b :: a in added && Requires(packages, a, b) ==> b in all
  }

  /** Whatever set contains the name and is closed contains `added`. */
  ghost predicate Needed(packages: Packages, name: string, added: set<string>) {
    forall t :: name in t && Closed(packages, t) ==> added <= t
  }

  lemma NothingAdded(packages: Packages, name: string, all: set<string>)
    ensures Satisfied(packages, {}, all)
    ensures Needed(packages, name, {}) && Needed(packages, name, {name})
  {
  }

  lemma NeedMore(packages: Packages, name: string, other: string, added: set<string>, more: set<string>)
    requires Needed(packages, name, added) && Needed(packages, other, more)
    requires name in packages && other in packages[name].requirements
    requires other !in packages ==> more == {}
    ensures Needed(packages, name, added + more)
  {
    forall t | name in t && Closed(packages, t) ensures added + more <= t {
      assert other in packages ==> Requires(packages, name, other);
    }
  }

  lemma SatisfyMore(packages: Packages, added: set<string>, before: set<string>, more: set<string>, all: set<string>)
    requires Satisfied(packages, added, before) && Satisfied(packages, more, all) && before <= all
    ensures Satisfied(packages, added + more, all)
  {
  }

  lemma SatisfyLast(packages: Packages, name: string, added: set<string>, all: set<string>)
    requires Satisfied(packages, added - {name}, all) && name in packages
    requires forall d :: d in packages[name].requirements && d in packages ==> d in all
    ensures Satisfied(packages, added, all)
  {
  }

  // ---------------------------------------------------------------- the downloader

  class Downloader {
    const packages: Packages
    var namesToDownload: set<string>

    constructor (packages: Packages)
      ensures this.packages == packages && namesToDownload == {}
    {
      this.packages := packages;
      namesToDownload := {};
    }

    /** The name and all it requires is added, as far as it is known and not there already; what is added is flagged. */
    method AddPackageAndDependencies(name: string)
      requires Distinct(packages) && namesToDownload <= packages.Keys
      modifies this`namesToDownload, Objects(packages)
      ensures old(namesToDownload) <= namesToDownload <= packages.Keys
      ensures if name in packages then name in namesToDownload else namesToDownload == old(namesToDownload)
      ensures Satisfied(packages, namesToDownload - old(namesToDownload), namesToDownload)
      ensures Needed(packages, name, namesToDownload - old(namesToDownload))
      ensures Marked(packages) == old(Marked(packages)) + (namesToDownload - old(namesToDownload))
      decreases packages.Keys - namesToDownload
    {
      hide Satisfied, Needed;
      NothingAdded(packages, name, namesToDownload);
      NothingAdded(packages, name, namesToDownload + {name});
      assert namesToDownload - namesToDownload == {};
      if name in namesToDownload { return; }
      if name !in packages { return; }
      packages[name].needsDownload := true;
      namesToDownload := namesToDownload + {name};
      assert namesToDownload - old(namesToDownload) == {name} && {name} - {name} == {};
      var requirements := packages[name].requirements;
      var i := 0;
      while i < |requirements|
        invariant 0 <= i <= |requirements|
        invariant old(namesToDownload) + {name} <= namesToDownload <= packages.Keys
        invariant forall k :: 0 <= k < i && requirements[k] in packages ==> requirements[k] in namesToDownload
        invariant Satisfied(packages, namesToDownload - old(namesToDownload) - {name}, namesToDownload)
        invariant Needed(packages, name, namesToDownload - old(namesToDownload))
        invariant Marked(packages) == old(Marked(packages)) + (namesToDownload - old(namesToDownload))
      {
        ghost var before := namesToDownload;
        AddPackageAndDependencies(requirements[i]);
        NeedMore(packages, name, requirements[i], before - old(namesToDownload), namesToDownload - before);
        assert namesToDownload - old(namesToDownload) == (before - old(namesToDownload)) + (namesToDownload - before);
        SatisfyMore(packages, before - old(namesToDownload) - {name}, before, namesToDownload - before, namesToDownload);
        assert namesToDownload - old(namesToDownload) - {name} ==
               (before - old(namesToDownload) - {name}) + (namesToDownload - before);
        i := i + 1;
      }
      SatisfyLast(packages, name, namesToDownload - old(namesToDownload), namesToDownload);
    }

    /** The marking loop reads flags that the marking sets. */
    method MarkRequired(packageNames: seq<string>)
      requires Distinct(packages) && namesToDownload == {}
      requires forall n :: n in packageNames <==> n in packages
      modifies this`namesToDownload, Objects(packages)
      ensures LeastClosed(packages, old(Marked(packages)), namesToDownload)
      ensures Marked(packages) == namesToDownload <= packages.Keys
    {
      ghost var marked := Marked(packages);
      var i := 0;
      while i < |packageNames|
        invariant 0 <= i <= |packageNames|
        invariant namesToDownload <= packages.Keys
        invariant Closed(packages, namesToDownload)
        invariant forall k :: 0 <= k < i && packageNames[k] in marked ==> packageNames[k] in namesToDownload
        invariant forall t :: marked <= t && Closed(packages, t) ==> namesToDownload <= t
        invariant Marked(packages) == marked + namesToDownload
      {
        var name := packageNames[i];
        if packages[name].needsDownload {
          ghost var before := namesToDownload;
          assert name in marked + before;
          AddPackageAndDependencies(name);
          forall t | marked <= t && Closed(packages, t) ensures namesToDownload <= t {
            assert name in t;
          }
        }
        i := i + 1;
      }
      forall n | n in marked ensures n in namesToDownload {
        var k :| 0 <= k < |packageNames| && packageNames[k] == n;
      }
    }

    /** The flagged packages in order, each with its number and the announced total. */
    method DownloadAll(packageNames: seq<string>) returns (downloads: seq<Download>)
      requires Marked(packages) == namesToDownload <= packages.Keys
      requires NoDuplicates(packageNames) && forall n :: n in packageNames <==> n in packages
      ensures |downloads| == |namesToDownload|
      ensures forall k :: 0 <= k < |downloads| ==> downloads[k].number == k + 1 && downloads[k].total == |downloads|
      ensures Names(downloads) == Selected(packageNames, namesToDownload)
    {
      hide Selected, Names, NoDuplicates;
      downloads := [];
      SelectedNone(packageNames, namesToDownload);
      var downloadedSoFar := 0;
      var i := 0;
      while i < |packageNames|
        invariant 0 <= i <= |packageNames| && downloadedSoFar == |downloads|
        invariant forall k :: 0 <= k < |downloads| ==>
          downloads[k].number == k + 1 && downloads[k].total == |namesToDownload|
        invariant Names(downloads) == Selected(packageNames[..i], namesToDownload)
      {
        var name := packageNames[i];
        SelectedNext(packageNames, i, namesToDownload);
        assert packages[name].needsDownload <==> name in Marked(packages);
        if packages[name].needsDownload {
          downloadedSoFar := downloadedSoFar + 1;
          NamesNext(downloads, Download(name, downloadedSoFar, |namesToDownload|));
          downloads := downloads + [Download(name, downloadedSoFar, |namesToDownload|)];
        }
        i := i + 1;
      }
      assert packageNames[..i] == packageNames;
      SelectedHasAll(packageNames, namesToDownload);
    }

    /** The whole run downloads each package that a marked one leads to, once, and nothing else. */
    method DownloadRequired(packageNames: seq<string>) returns (downloads: seq<Download>)
      requires Distinct(packages) && namesToDownload == {}
      requires NoDuplicates(packageNames) && forall n :: n in packageNames <==> n in packages
      modifies this`namesToDownload, Objects(packages)
      ensures NoDuplicates(Names(downloads))
      ensures forall n :: n in Names(downloads) <==> exists path :: Chain(packages, old(Marked(packages)), path, n)
    {
      ghost var marked := Marked(packages);
      MarkRequired(packageNames);
      LeastClosedIsReachable(packages, marked, namesToDownload);
      downloads := DownloadAll(packageNames);
      SelectedHasAll(packageNames, namesToDownload);
    }
  }

  datatype Download = Download(name: string, number: nat, total: nat)

  function Names(ds: seq<Download>): (r: seq<string>)
    ensures |r| == |ds|
  {
    if ds == [] then [] else Names(ds[..|ds| - 1]) + [ds[|ds| - 1].name]
  }

  /** The names of the list that are in s, in the order of the list. */
  ghost function Selected(names: seq<string>, s: set<string>): seq<string> {
    if names == [] then []
    else
      var last := names[|names| - 1];
      Selected(names[..|names| - 1], s) + if last in s then [last] else []
  }

  lemma SelectedNone(names: seq<string>, s: set<string>)
    ensures Selected(names[..0], s) == [] && Names([]) == []
  {
  }

  lemma SelectedNext(names: seq<string>, i: nat, s: set<string>)
    requires i < |names|
    ensures Selected(names[..i + 1], s) == if names[i] in s then Selected(names[..i], s) + [names[i]] else Selected(names[..i], s)
  {
    assert names[..i + 1][..i] == names[..i];
  }

  lemma NamesNext(ds: seq<Download>, d: Download)
    ensures Names(ds + [d]) == Names(ds) + [d.name]
  {
    assert (ds + [d])[..|ds|] == ds;
  }

  /** From a list without duplicates that contains all of s, each element of s is selected once. */
  lemma {:induction false} SelectedHasAll(names: seq<string>, s: set<string>)
    requires NoDuplicates(names) && forall n :: n in s ==> n in names
    ensures |Selected(names, s)| == |s|
    ensures NoDuplicates(Selected(names, s))
    ensures forall n :: n in Selected(names, s) <==> n in s
    decreases |names|
  {
    if names == [] {
      assert s == {};
    } else {
      var init, last := names[..|names| - 1], names[|names| - 1];
      assert names == init + [last];
      assert last !in init;
      SelectedHasAll(init, s - {last});
      SelectedWithout(init, s, last);
      var r := Selected(init, s);
      assert Selected(names, s) == if last in s then r + [last] else r;
      hide Selected;
      ListsOneMore(r, s, last);
    }
  }

  ghost predicate Lists(r: seq<string>, s: set<string>) {
    |r| == |s| && NoDuplicates(r) && forall n :: n in r <==> n in s
  }

  lemma ListsOneMore(r: seq<string>, s: set<string>, last: string)
    requires Lists(r, s - {last})
    ensures Lists(if last in s then r + [last] else r, s)
  {
    if last in s {
      assert s == (s - {last}) + {last};
    } else {
      assert s == s - {last};
    }
  }

  ghost predicate Along(names: seq<string>, before: (string, string) -> bool) {
    forall i, j :: 0 <= i < j < |names| ==> before(names[i], names[j])
  }

  /** The selection keeps the order of the list: whatever relation holds along the list holds along the selection. */
  lemma {:induction false} SelectedKeepsOrder(names: seq<string>, s: set<string>, before: (string, string) -> bool)
    requires Along(names, before)
    ensures Along(Selected(names, s), before)
    decreases |names|
  {
    if names != [] {
      var init, last := names[..|names| - 1], names[|names| - 1];
      SelectedKeepsOrder(init, s, before);
      SelectedInList(init, s);
      var r := Selected(init, s);
      forall i | 0 <= i < |r| ensures before(r[i], last) {
        assert r[i] in init;
        var k :| 0 <= k < |init| && init[k] == r[i];
        assert before(names[k], names[|names| - 1]);
      }
      var all := Selected(names, s);
      assert all == if last in s then r + [last] else r;
      forall i, j | 0 <= i < j < |all| ensures before(all[i], all[j]) {
        assert all[i] == r[i] && before(r[i], last);
        if j < |r| { assert all[j] == r[j] && before(r[i], r[j]); }
      }
    }
  }

  lemma {:induction false} SelectedInList(names: seq<string>, s: set<string>)
    ensures forall n :: n in Selected(names, s) ==> n in names
    decreases |names|
  {
    if names != [] {
      SelectedInList(names[..|names| - 1], s);
      assert names == names[..|names| - 1] + [names[|names| - 1]];
    }
  }

  lemma {:induction false} SelectedWithout(names: seq<string>, s: set<string>, n: string)
    requires n !in names
    ensures Selected(names, s - {n}) == Selected(names, s)
    decreases |names|
  {
    if names != [] {
      SelectedWithout(names[..|names| - 1], s, n);
    }
  }
}
