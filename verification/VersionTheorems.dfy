/** What the choice of versions guarantees, for every listing and every outcome of the sort. */
module VersionTheorems {
  import opened Common
  import opened Objects
  import opened VersionHistory
  import Paths

  /** A possible outcome of sorting `s`. */
  ghost predicate SortOf(t: seq<Version>, s: seq<Version>) {
    Descending(t) && multiset(t) == multiset(s)
  }

  // ----- distinct creation times leave the sort no choice

  lemma {:induction false} SameElements(s: seq<Version>, t: seq<Version>, i: nat) returns (k: nat)
    requires multiset(s) == multiset(t) && i < |s|
    ensures k < |t| && t[k] == s[i]
  {
    assert s[i] in multiset(s);
    assert s[i] in t;
    k :| k < |t| && t[k] == s[i];
  }

  lemma {:induction false} SameHead(s: seq<Version>, t: seq<Version>)
    requires Descending(s) && Descending(t) && multiset(s) == multiset(t) && DistinctTimes(s) && |s| > 0
    ensures |t| > 0 && s[0] == t[0]
  {
    var k := SameElements(s, t, 0);
    var m := SameElements(t, s, 0);
    assert k > 0 ==> t[0].created >= t[k].created;
    assert m == 0;
  }

  lemma {:induction false} SortIsUnique(s: seq<Version>, t: seq<Version>)
    requires Descending(s) && Descending(t) && multiset(s) == multiset(t) && DistinctTimes(s)
    ensures s == t
    decreases |s|
  {
    assert |multiset(s)| == |s| && |multiset(t)| == |t|;
    if |s| > 0 {
      SameHead(s, t);
      TailPermutes(s, t);
      SortIsUnique(s[1..], t[1..]);
      assert s == [s[0]] + s[1..] && t == [t[0]] + t[1..];
    }
  }

  lemma {:induction false} DistinctPermuted(s: seq<Version>, t: seq<Version>)
    requires multiset(s) == multiset(t) && DistinctTimes(s)
    ensures DistinctTimes(t)
  {
    var h := PermutationIndices(t, s);
    forall i, j | 0 <= i < j < |t| ensures t[i].created != t[j].created {
      assert s[h[i]] == t[i] && s[h[j]] == t[j] && h[i] != h[j];
    }
  }

  // ----- pages and listing order do not matter

  lemma {:induction false} ListedWithout(ys: seq<Item>, k: nat)
    requires k < |ys|
    ensures multiset(Listed(ys)) == multiset(Listed(ys[..k] + ys[k + 1..])) + multiset(Listed([ys[k]]))
  {
    var left, right := ys[..k], ys[k + 1..];
    ListedAppend(left, right);
    ListedAppend(left, [ys[k]] + right);
    ListedAppend([ys[k]], right);
    SplitOut(ys, k);
  }

  lemma {:induction false} ListedPermutes(xs: seq<Item>, ys: seq<Item>)
    requires multiset(xs) == multiset(ys)
    ensures multiset(Listed(xs)) == multiset(Listed(ys))
    decreases |xs|
  {
    assert |multiset(xs)| == |xs| && |multiset(ys)| == |ys|;
    if |xs| > 0 {
      var k := Occurrence(xs, ys);
      ListedPermutes(xs[1..], ys[..k] + ys[k + 1..]);
      ListedWithout(ys, k);
      ListedWithout(xs, 0);
      assert xs[..0] + xs[1..] == xs[1..];
    }
  }

  /** All entries of all pages, as often as they occur. */
  ghost function PageItems(pages: seq<Page>): multiset<Item> {
    if |pages| == 0 then multiset{}
    else PageItems(pages[..|pages| - 1]) + (match pages[|pages| - 1] case Page(items) => multiset(items)
                                            case PageFailure => multiset{})
  }

  ghost predicate AllPagesListed(pages: seq<Page>) {
    forall i :: 0 <= i < |pages| ==> pages[i].Page?
  }

  /** One more page: its usable entries come after those of the pages before it, or the listing
      fails. */
  lemma {:induction false} OneMorePage(pages: seq<Page>, page: Page)
    ensures VersionsOf(pages + [page]) ==
      match VersionsOf(pages)
      case Err(e) => Err(e)
      case Ok(vs) =>
        match page case PageFailure => Err(ListFailed) case Page(items) => Ok(vs + Listed(items))
  {
    ItemsAppend(pages, page);
    if AllItems(pages).Ok? && page.Page? { ListedAppend(AllItems(pages).value, page.items); }
  }

  lemma {:induction false} ItemsAppend(pages: seq<Page>, page: Page)
    ensures AllItems(pages + [page]) ==
      match AllItems(pages)
      case Err(e) => Err(e)
      case Ok(items) => match page case PageFailure => Err(ListFailed) case Page(more) => Ok(items + more)
  {
    if |pages| == 0 {
      assert [page][1..] == [] && pages + [page] == [page];
      if page.Page? { assert page.items + [] == page.items == [] + page.items; }
    } else {
      TailOf(pages, [page]);
      ItemsAppend(pages[1..], page);
      if pages[0].Page? && AllItems(pages[1..]).Ok? && page.Page? {
        Assoc(pages[0].items, AllItems(pages[1..]).value, page.items);
      }
    }
  }

  /** The listing succeeds if and only if no page fails. */
  lemma {:induction false} ListingSucceedsIff(pages: seq<Page>)
    ensures VersionsOf(pages).Ok? <==> AllPagesListed(pages)
    decreases |pages|
  {
    if |pages| > 0 {
      var front, last := pages[..|pages| - 1], pages[|pages| - 1];
      assert pages == front + [last];
      ListingSucceedsIff(front);
      OneMorePage(front, last);
    }
  }

  /** The versions of one page are those of its usable entries: the ones that have attributes and
      are not disabled, in their order, each as often as it is listed. */
  lemma {:induction false} ListedIsStable(items: seq<Item>) returns (f: seq<nat>)
    ensures Ascending(f) && |f| == |Listed(items)| && forall k :: 0 <= k < |f| ==> f[k] < |items|
    ensures forall k :: 0 <= k < |f| ==> Lists(items[f[k]], Listed(items)[k])
    ensures forall i :: 0 <= i < |items| ==>
      (i in f <==> items[i].attributes.Some? && items[i].attributes.value.enabled != Some(false))
    decreases |items|
  {
    if |items| == 0 {
      f := [];
    } else {
      var last := |items| - 1;
      f := ListedIsStable(items[..last]);
      assert items == items[..last] + [items[last]];
      ListedAppend(items[..last], [items[last]]);
      if Usable(items[last]) {
        assert Listed([items[last]]) == [ToVersion(items[last])];
        f := f + [last];
      } else {
        assert Listed([items[last]]) == [];
      }
    }
  }

  ghost predicate Ascending(f: seq<nat>) {
    forall a, b :: 0 <= a < b < |f| ==> f[a] < f[b]
  }

  /** A version is that of an entry: same identifier, and the time of its creation, or the Unix epoch
      if it has none. */
  ghost predicate Lists(i: Item, v: Version) {
    && i.attributes.Some? && i.version == v.id
    && (match i.attributes.value.created case Some(t) => v.created == t case None => v.created == 0)
  }

  /** The entries the listing is made of are those of its pages. */
  lemma {:induction false} ItemsOfPages(pages: seq<Page>)
    requires AllPagesListed(pages)
    ensures AllItems(pages).Ok? && multiset(AllItems(pages).value) == PageItems(pages)
    decreases |pages|
  {
    if |pages| > 0 {
      var front, last := pages[..|pages| - 1], pages[|pages| - 1];
      assert pages == front + [last];
      ItemsOfPages(front);
      ItemsAppend(front, last);
    }
  }

  /** With distinct creation times the choice does not depend on how the service splits the versions
      into pages, in what order it lists them, or how the sort proceeds. */
  lemma {:induction false} PagesAndOrderDoNotMatter(kv: KeyVaultObject, pages: seq<Page>, pages': seq<Page>,
                                                    s: seq<Version>, s': seq<Version>)
    requires AllPagesListed(pages) && AllPagesListed(pages') && PageItems(pages) == PageItems(pages')
    requires VersionsOf(pages).Ok? && DistinctTimes(VersionsOf(pages).value)
    requires VersionsOf(pages').Ok?
    requires SortOf(s, VersionsOf(pages).value) && SortOf(s', VersionsOf(pages').value)
    ensures Window(kv, s) == Window(kv, s')
  {
    ItemsOfPages(pages);
    ItemsOfPages(pages');
    ListedPermutes(AllItems(pages).value, AllItems(pages').value);
    DistinctPermuted(VersionsOf(pages).value, s);
    SortIsUnique(s, s');
  }

  /** Exactly the entries that have attributes and are not disabled are listed; one without a date
      counts as created at the Unix epoch. */
  lemma {:induction false} ListedIffUsable(items: seq<Item>, v: Version)
    ensures v in Listed(items) <==>
      exists i :: i in items && i.attributes.Some? && i.attributes.value.enabled != Some(false) && i.version == v.id
               && (i.attributes.value.created == Some(v.created)
                   || (i.attributes.value.created.None? && v.created == UNIX_EPOCH))
  {
    if |items| > 0 {
      assert items == [items[0]] + items[1..];
      ListedIffUsable(items[1..], v);
    }
  }

  lemma {:induction false} UsableSource(items: seq<Item>, v: Version)
    requires v in Listed(items)
    ensures exists i :: i in items && Usable(i) && i.version == v.id
  {
    ListedIffUsable(items, v);
  }

  /** An entry of some page that has attributes and is not disabled. */
  ghost predicate IsOffered(pages: seq<Page>, i: Item) {
    && i.attributes.Some? && i.attributes.value.enabled != Some(false)
    && exists p :: 0 <= p < |pages| && pages[p].Page? && i in pages[p].items
  }

  lemma {:induction false} OfferedIff(pages: seq<Page>, i: Item)
    requires AllPagesListed(pages)
    ensures AllItems(pages).Ok? && (i in AllItems(pages).value && Usable(i) <==> IsOffered(pages, i))
    decreases |pages|
  {
    if |pages| > 0 {
      var front, last := pages[..|pages| - 1], pages[|pages| - 1];
      assert pages == front + [last];
      OfferedIff(front, i);
      ItemsAppend(front, last);
      if i in AllItems(pages).value && Usable(i) {
        if i in last.items {
          assert pages[|pages| - 1].Page? && i in pages[|pages| - 1].items;
        } else {
          var p :| 0 <= p < |front| && front[p].Page? && i in front[p].items;
          assert pages[p].Page? && i in pages[p].items;
        }
      }
      if IsOffered(pages, i) {
        var p :| 0 <= p < |pages| && pages[p].Page? && i in pages[p].items;
        if p < |front| { assert front[p].Page? && i in front[p].items; }
      }
    }
  }

  /** Every version that gets a file is that of an entry of some page that has attributes and is not
      disabled. */
  lemma {:induction false} OnlyUsableVersions(kv: KeyVaultObject, pages: seq<Page>, s: seq<Version>, k: nat)
    requires AllPagesListed(pages)
    requires VersionsOf(pages).Ok? && SortOf(s, VersionsOf(pages).value)
    requires k < |Window(kv, s)|
    ensures exists i :: IsOffered(pages, i) && i.version == Window(kv, s)[k].objectVersion
  {
    var i := Start(kv, s) + k;
    var item := SourceOf(pages, s, i);
    assert Window(kv, s)[k].objectVersion == s[i].id;
  }

  /** The entry a version of the sorted list comes from. */
  lemma {:induction false} SourceOf(pages: seq<Page>, s: seq<Version>, k: nat) returns (i: Item)
    requires AllPagesListed(pages) && VersionsOf(pages).Ok? && SortOf(s, VersionsOf(pages).value) && k < |s|
    ensures IsOffered(pages, i) && i.version == s[k].id
  {
    var items := AllItems(pages).value;
    var j := SameElements(s, Listed(items), k);
    assert s[k] == Listed(items)[j];
    UsableSource(items, s[k]);
    i :| i in items && Usable(i) && i.version == s[k].id;
    OfferedIff(pages, i);
  }

  /** What an object that asks for no version, or for the latest, gets first: the version of an
      offered entry than which none that is offered, on any page, is newer. */
  lemma {:induction false} LatestIsNewest(kv: KeyVaultObject, pages: seq<Page>, s: seq<Version>, i: Item)
    returns (newest: Item)
    requires kv.objectVersion == "" || kv.objectVersion == "latest"
    requires AllPagesListed(pages) && VersionsOf(pages).Ok? && SortOf(s, VersionsOf(pages).value)
    requires IsOffered(pages, i)
    ensures |Window(kv, s)| > 0 && IsOffered(pages, newest)
    ensures newest.version == Window(kv, s)[0].objectVersion && CreatedAt(newest) >= CreatedAt(i)
  {
    var items := AllItems(pages).value;
    OfferedIff(pages, i);
    ListedIffUsable(items, ToVersion(i));
    var a :| 0 <= a < |Listed(items)| && Listed(items)[a] == ToVersion(i);
    var b := SameElements(Listed(items), s, a);
    assert s[0].created >= s[b].created;
    newest := NewestOf(pages, s);
    FirstIsNewest(kv, s);
  }

  lemma {:induction false} FirstIsNewest(kv: KeyVaultObject, s: seq<Version>)
    requires (kv.objectVersion == "" || kv.objectVersion == "latest") && |s| > 0
    ensures |Window(kv, s)| > 0 && Window(kv, s)[0].objectVersion == s[0].id
  {
  }

  lemma {:induction false} NewestOf(pages: seq<Page>, s: seq<Version>) returns (i: Item)
    requires AllPagesListed(pages) && VersionsOf(pages).Ok? && SortOf(s, VersionsOf(pages).value) && |s| > 0
    ensures IsOffered(pages, i) && i.version == s[0].id && CreatedAt(i) == s[0].created
  {
    var items := AllItems(pages).value;
    var j := SameElements(s, Listed(items), 0);
    assert s[0] == Listed(items)[j];
    ListedIffUsable(items, s[0]);
    i :| i in items && Usable(i) && i.version == s[0].id && CreatedAt(i) == s[0].created;
    OfferedIff(pages, i);
  }

  /** When an entry was created: at the Unix epoch if it does not say. */
  function CreatedAt(i: Item): int
    requires i.attributes.Some?
  {
    match i.attributes.value.created case Some(t) => t case None => 0
  }

  // ----- which versions are synced

  /** The window starts at the first version with the requested id (or at the newest), is contiguous,
      and keeps every field of the object but alias and version. */
  lemma {:induction false} WindowIsContiguous(kv: KeyVaultObject, s: seq<Version>, i: nat)
    requires i < |Window(kv, s)|
    ensures var start := Start(kv, s); var o := Window(kv, s)[i];
      && start + i < |s| && o.objectVersion == s[start + i].id
      && (if WantsLatest(kv) then start == 0
          else s[start].id == kv.objectVersion && forall k :: 0 <= k < start ==> s[k].id != kv.objectVersion)
      && o.GetFileName() == Paths.Join(kv.GetFileName(), Paths.Itoa(i))
      && o.(objectAlias := kv.objectAlias, objectVersion := kv.objectVersion) == kv
      && (i + 1 == |Window(kv, s)| ==> start + i + 1 == |s| || i + 1 == Limit(kv))
  {
    NonEmptyAlias(kv.GetFileName(), i);
  }

  lemma {:induction false} NonEmptyAlias(base: string, i: nat)
    ensures Paths.Join(base, Paths.Itoa(i)) != ""
  {
    Paths.ItoaIsDigits(i);
    Paths.CleanNotEmpty(if base != "" then base + [Paths.SEP] + Paths.Itoa(i) else Paths.Itoa(i));
  }


  /** Nothing is synced exactly when the requested version is not listed (or nothing is). */
  lemma {:induction false} NothingSyncedIff(kv: KeyVaultObject, s: seq<Version>)
    ensures Window(kv, s) == [] <==>
      if WantsLatest(kv) then s == [] else forall v :: v in s ==> v.id != kv.objectVersion
  {
    if !WantsLatest(kv) && Start(kv, s) < |s| {
      assert s[Start(kv, s)] in s;
    }
  }

  /** The documented number of versions is respected if and only if no more than that many are
      available from the starting version on; otherwise exactly one more is synced. */
  lemma {:induction false} DocumentedCountIff(kv: KeyVaultObject, s: seq<Version>)
    requires kv.objectVersionHistory >= 0
    ensures var n, available := kv.objectVersionHistory as int, |s| - Start(kv, s);
      && (|Window(kv, s)| <= n <==> available <= n)
      && (available > n ==> |Window(kv, s)| == n + 1)
  {
  }

  /** An object that asks for a version by its identifier gets that version first, if it gets any. */
  lemma {:induction false} PinnedGetsItsVersion(kv: KeyVaultObject, s: seq<Version>)
    requires kv.objectVersion != "" && kv.objectVersion != "latest"
    ensures |Window(kv, s)| > 0 <==> exists v :: v in s && v.id == kv.objectVersion
    ensures |Window(kv, s)| > 0 ==> Window(kv, s)[0].objectVersion == kv.objectVersion
  {
    NothingSyncedIff(kv, s);
  }

  /** A history of two and three versions: all three are synced. */
  lemma {:induction false} HistoryOfTwo()
    ensures var kv := KeyVaultObject("secret1", "", "", 2, SECRET, "", "", "");
      var s := [Version("c", 3), Version("b", 2), Version("a", 1)];
      Descending(s) && |Window(kv, s)| == 3
  {
    var kv := KeyVaultObject("secret1", "", "", 2, SECRET, "", "", "");
    DocumentedCountIff(kv, [Version("c", 3), Version("b", 2), Version("a", 1)]);
  }

  // ----- rotation

  /** Every version of `newer` was created after every version of `older`. */
  ghost predicate AllNewer(newer: seq<Version>, older: seq<Version>) {
    forall i, j :: 0 <= i < |newer| && 0 <= j < |older| ==> newer[i].created > older[j].created
  }

  /** Sorting after newer versions were added puts them, sorted, in front of the old list. */
  lemma {:induction false} NewerGoFirst(newer: seq<Version>, older: seq<Version>, s: seq<Version>, t: seq<Version>)
    requires AllNewer(newer, older) && DistinctTimes(older)
    requires SortOf(s, older) && SortOf(t, newer + older)
    ensures |t| == |newer| + |s| && t[|newer|..] == s
    ensures multiset(t[..|newer|]) == multiset(newer)
  {
    PrefixIsNewer(newer, older, t);
    RestIsOlder(newer, older, t);
    SameLength(s, older);
    DistinctPermuted(older, s);
    SortIsUnique(s, t[|newer|..]);
  }

  lemma {:induction false} SameLength<T>(s: seq<T>, t: seq<T>)
    requires multiset(s) == multiset(t)
    ensures |s| == |t|
  {
    assert |multiset(s)| == |s| && |multiset(t)| == |t|;
  }

  lemma {:induction false} RestIsOlder<T>(newer: seq<T>, older: seq<T>, t: seq<T>)
    requires multiset(t) == multiset(newer + older) && |newer| <= |t|
    requires multiset(t[..|newer|]) == multiset(newer)
    ensures multiset(t[|newer|..]) == multiset(older)
  {
    var k := |newer|;
    assert t == t[..k] + t[k..];
    assert multiset(t[k..]) == multiset(t) - multiset(t[..k]);
    assert multiset(older) == multiset(newer + older) - multiset(newer);
  }

  lemma {:induction false} PrefixIsNewer(newer: seq<Version>, older: seq<Version>, t: seq<Version>)
    requires AllNewer(newer, older) && SortOf(t, newer + older)
    ensures |t| == |newer| + |older| && multiset(t[..|newer|]) == multiset(newer)
  {
    var k, n := |newer|, |newer| + |older|;
    assert |multiset(t)| == |t| && |multiset(newer + older)| == n;
    var h := PermutationIndices(newer + older, t);
    forall a | 0 <= a < k ensures h[a] < k {
      NewerIsEarly(newer, older, t, h, a);
    }
    PermutedIndices(t[..k], h[..k]);
    assert Gather(t[..k], h[..k]) == newer;
  }

  /** A newer version cannot stand behind an older one, so there is no room for it past `k`. */
  lemma {:induction false} NewerIsEarly(newer: seq<Version>, older: seq<Version>, t: seq<Version>, h: seq<nat>, a: nat)
    requires AllNewer(newer, older) && Descending(t) && a < |newer|
    requires |h| == |newer| + |older| == |t| && Distinct(h)
    requires forall m :: 0 <= m < |h| ==> h[m] < |t| && t[h[m]] == (newer + older)[m]
    ensures h[a] < |newer|
  {
    var k, n := |newer|, |h|;
    var later := h[k..];
    forall m | 0 <= m < |later| ensures later[m] > h[a] {
      assert t[later[m]] == older[m] && t[h[a]] == newer[a];
      assert later[m] != h[a];
    }
    PigeonholeAbove(later, h[a] + 1, n);
  }

  /** Distinct numbers between `lo` and `hi` are at most `hi - lo` many. */
  lemma {:induction false} PigeonholeAbove(s: seq<nat>, lo: nat, hi: nat)
    requires Distinct(s) && lo <= hi && forall k :: 0 <= k < |s| ==> lo <= s[k] < hi
    ensures |s| <= hi - lo
  {
    var shifted: seq<nat> := seq(|s|, k requires 0 <= k < |s| => s[k] - lo);
    Pigeonhole(shifted, hi - lo);
  }

  /** A run of the vault: batches of versions, each newer than everything before it. */
  ghost predicate GrowingRun(base: seq<Version>, batches: seq<seq<Version>>)
    decreases |batches|
  {
    |batches| == 0 || (AllNewer(batches[0], base) && GrowingRun(batches[0] + base, batches[1..]))
  }

  /** All versions added during a run, the last batch first. */
  ghost function Added(batches: seq<seq<Version>>): seq<Version> {
    if |batches| == 0 then [] else Added(batches[1..]) + batches[0]
  }

  lemma {:induction false} RunIsNewer(base: seq<Version>, batches: seq<seq<Version>>)
    requires GrowingRun(base, batches)
    ensures AllNewer(Added(batches), base)
    decreases |batches|
  {
    if |batches| > 0 {
      var b := batches[0];
      RunIsNewer(b + base, batches[1..]);
      var later := Added(batches[1..]);
      forall i, j | 0 <= i < |later + b| && 0 <= j < |base| ensures (later + b)[i].created > base[j].created {
        if i < |later| { assert later[i].created > (b + base)[|b| + j].created; }
      }
    }
  }

  /** The list `t` is `s` with `k` versions in front of it. */
  ghost predicate ShiftedBy(t: seq<Version>, s: seq<Version>, k: nat) {
    |t| == k + |s| && forall i :: k <= i < |t| ==> t[i] == s[i - k]
  }

  lemma {:induction false} NewerShift(newer: seq<Version>, base: seq<Version>, s: seq<Version>, t: seq<Version>)
    requires AllNewer(newer, base) && DistinctTimes(base)
    requires SortOf(s, base) && SortOf(t, newer + base)
    ensures ShiftedBy(t, s, |newer|) && multiset(t[..|newer|]) == multiset(newer)
  {
    var k := |newer|;
    NewerGoFirst(newer, base, s, t);
    assert forall i :: k <= i < |t| ==> t[i] == t[k..][i - k];
  }

  lemma {:induction false} FrontIsNewer(newer: seq<Version>, t: seq<Version>, i: nat)
    requires i < |newer| <= |t| && multiset(t[..|newer|]) == multiset(newer)
    ensures t[i] in newer
  {
    var k := SameElements(t[..|newer|], newer, i);
  }

  lemma {:induction false} WindowShifts(kv: KeyVaultObject, k: nat, s: seq<Version>, t: seq<Version>, i: nat)
    requires WantsLatest(kv) && ShiftedBy(t, s, k) && k <= i < |Window(kv, t)|
    ensures i - k < |Window(kv, s)|
    ensures Window(kv, t)[i] == Window(kv, s)[i - k].(objectAlias := Window(kv, t)[i].objectAlias)
  {
    assert t[i] == s[i - k];
  }

  lemma {:induction false} LatestShifts(kv: KeyVaultObject, newer: seq<Version>, base: seq<Version>,
                                        s: seq<Version>, t: seq<Version>, i: nat)
    requires WantsLatest(kv) && AllNewer(newer, base) && DistinctTimes(base)
    requires SortOf(s, base) && SortOf(t, newer + base) && |newer| <= i < |Window(kv, t)|
    ensures i - |newer| < |Window(kv, s)|
    ensures Window(kv, t)[i] == Window(kv, s)[i - |newer|].(objectAlias := Window(kv, t)[i].objectAlias)
  {
    NewerShift(newer, base, s, t);
    WindowShifts(kv, |newer|, s, t, i);
  }

  /** Latest mode: after a run that added `k` versions, every index from `k` on holds the version
      that was `k` places before. */
  lemma {:induction false} RotationShifts(kv: KeyVaultObject, base: seq<Version>, batches: seq<seq<Version>>,
                                          s: seq<Version>, t: seq<Version>, i: nat)
    requires WantsLatest(kv) && GrowingRun(base, batches) && DistinctTimes(base)
    requires SortOf(s, base) && SortOf(t, Added(batches) + base)
    requires |Added(batches)| <= i < |Window(kv, t)|
    ensures i - |Added(batches)| < |Window(kv, s)|
    ensures Window(kv, t)[i] == Window(kv, s)[i - |Added(batches)|].(objectAlias := Window(kv, t)[i].objectAlias)
  {
    RunIsNewer(base, batches);
    LatestShifts(kv, Added(batches), base, s, t, i);
  }

  lemma {:induction false} PinnedWindow(kv: KeyVaultObject, k: nat, s: seq<Version>, t: seq<Version>)
    requires !WantsLatest(kv) && ShiftedBy(t, s, k)
    requires forall i :: 0 <= i < k ==> t[i].id != kv.objectVersion
    ensures Window(kv, t) == Window(kv, s)
  {
    MatchShifts(kv.objectVersion, k, s, t);
    var a, b := Start(kv, t), Start(kv, s);
    assert a == k + b;
    forall i | 0 <= i < Count(kv, s) ensures Window(kv, t)[i] == Window(kv, s)[i] {
      assert t[a + i] == s[b + i];
    }
  }

  /** Pinned mode: versions with other ids that are added later change nothing. */
  lemma {:induction false} PinnedIsStable(kv: KeyVaultObject, base: seq<Version>, batches: seq<seq<Version>>,
                                          s: seq<Version>, t: seq<Version>)
    requires !WantsLatest(kv) && GrowingRun(base, batches) && DistinctTimes(base)
    requires forall v :: v in Added(batches) ==> v.id != kv.objectVersion
    requires SortOf(s, base) && SortOf(t, Added(batches) + base)
    ensures Window(kv, t) == Window(kv, s)
  {
    RunIsNewer(base, batches);
    var added := Added(batches);
    NewerShift(added, base, s, t);
    forall i | 0 <= i < |added| ensures t[i].id != kv.objectVersion { FrontIsNewer(added, t, i); }
    PinnedWindow(kv, |added|, s, t);
  }

  lemma {:induction false} MatchShifts(id: string, k: nat, s: seq<Version>, t: seq<Version>)
    requires ShiftedBy(t, s, k) && forall i :: 0 <= i < k ==> t[i].id != id
    ensures FirstMatch(id, t) == k + FirstMatch(id, s)
  {
    var p, q := FirstMatch(id, t), FirstMatch(id, s);
    assert q < |s| ==> t[k + q] == s[q];
    assert k <= p < |t| ==> t[p] == s[p - k];
  }
}
