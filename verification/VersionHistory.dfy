/** Listing the versions of an object and choosing the ones to sync
    (`GetSecretVersions` and its siblings, `getLatestNKeyVaultObjects`). */
module VersionHistory {
  import opened Common
  import opened Objects
  import Paths

  datatype Attributes = Attributes(enabled: Option<bool>, created: Option<int>)

  /** One entry of a listing: the version its identifier names, and its attributes if it has any. */
  datatype Item = Item(attributes: Option<Attributes>, version: string)

  datatype Page = Page(items: seq<Item>) | PageFailure

  datatype ListError = ListFailed

  /** A version and its time of creation, counted from the Unix epoch. */
  datatype Version = Version(id: string, created: int)

  const UNIX_EPOCH := 0

  // ----- listing

  predicate Usable(i: Item) {
    i.attributes.Some? && i.attributes.value.enabled != Some(false)
  }

  function ToVersion(i: Item): Version
    requires i.attributes.Some?
  {
    Version(i.version, match i.attributes.value.created case None => UNIX_EPOCH case Some(t) => t)
  }

  function Listed(items: seq<Item>): seq<Version> {
    if |items| == 0 then []
    else (if Usable(items[0]) then [ToVersion(items[0])] else []) + Listed(items[1..])
  }

  function AllItems(pages: seq<Page>): Result<seq<Item>, ListError> {
    if |pages| == 0 then Ok([])
    else match pages[0]
      case PageFailure => Err(ListFailed)
      case Page(items) =>
        Prepend(items, AllItems(pages[1..]))
  }

  function VersionsOf(pages: seq<Page>): Result<seq<Version>, ListError> {
    match AllItems(pages)
    case Err(e) => Err(e)
    case Ok(items) => Ok(Listed(items))
  }

  lemma {:induction false} ListedAppend(a: seq<Item>, b: seq<Item>)
    ensures Listed(a + b) == Listed(a) + Listed(b)
  {
    if |a| == 0 {
      assert a + b == b;
    } else {
      ListedAppend(a[1..], b);
      TailOf(a, b);
      Assoc(if Usable(a[0]) then [ToVersion(a[0])] else [], Listed(a[1..]), Listed(b));
    }
  }

  /** The pager loop: page after page, skipping entries without attributes and disabled ones. */
  method ListVersions(pages: seq<Page>) returns (r: Result<seq<Version>, ListError>)
    ensures r == VersionsOf(pages)
  {
    var versions: seq<Version> := [];
    ghost var seen: seq<Item> := [];
    ghost var all := AllItems(pages);
    PrependNothing(all);
    assert pages[0..] == pages;
    for p := 0 to |pages|
      invariant all == Prepend(seen, AllItems(pages[p..]))
      invariant versions == Listed(seen)
    {
      assert pages[p..][1..] == pages[p + 1..];
      if pages[p].PageFailure? { return Err(ListFailed); }
      var items := pages[p].items;
      ghost var before := seen;
      assert before + items[..0] == before;
      for k := 0 to |items|
        invariant versions == Listed(before + items[..k])
      {
        ListedAppend(before + items[..k], [items[k]]);
        assert before + items[..k + 1] == (before + items[..k]) + [items[k]];
        var item := items[k];
        if item.attributes.None? { continue; }
        if item.attributes.value.enabled == Some(false) { continue; }
        var created := UNIX_EPOCH;
        if item.attributes.value.created.Some? {
          created := item.attributes.value.created.value;
        }
        versions := versions + [Version(item.version, created)];
      }
      assert items[..|items|] == items;
      seen := before + items;
      PrependTwice(before, items, AllItems(pages[p + 1..]));
    }
    assert seen + [] == seen;
    r := Ok(versions);
  }

  // ----- the version list and its order

  ghost predicate Descending(s: seq<Version>) {
    forall i, j :: 0 <= i < j < |s| ==> s[i].created >= s[j].created
  }

  ghost predicate DistinctTimes(s: seq<Version>) {
    forall i, j :: 0 <= i < j < |s| ==> s[i].created != s[j].created
  }

  /** Newer versions come first. */
  predicate Less(a: array<Version>, i: nat, j: nat)
    requires i < a.Length && j < a.Length
    reads a
  {
    a[i].created > a[j].created
  }

  method Swap(a: array<Version>, i: nat, j: nat)
    requires i < a.Length && j < a.Length
    modifies a
    ensures a[i] == old(a[j]) && a[j] == old(a[i])
    ensures forall m :: 0 <= m < a.Length && m != i && m != j ==> a[m] == old(a[m])
    ensures multiset(a[..]) == old(multiset(a[..]))
  {
    a[i], a[j] := a[j], a[i];
  }

  ghost predicate SortedExcept(s: seq<Version>, n: nat, j: nat)
    requires n <= |s|
  {
    forall p, q :: 0 <= p < q < n && q != j ==> s[p].created >= s[q].created
  }

  /** Moves element `i` to its place among the sorted elements before it. */
  method Insert(a: array<Version>, i: nat)
    requires i < a.Length && Descending(a[..i])
    modifies a
    ensures Descending(a[..i + 1])
    ensures multiset(a[..]) == old(multiset(a[..]))
  {
    var j := i;
    assert SortedExcept(a[..], i + 1, j) by {
      forall p, q | 0 <= p < q < i + 1 && q != j ensures a[..][p].created >= a[..][q].created {
        assert a[..i][p].created >= a[..i][q].created;
      }
    }
    while j > 0 && Less(a, j, j - 1)
      invariant 0 <= j <= i
      invariant SortedExcept(a[..], i + 1, j)
      invariant multiset(a[..]) == old(multiset(a[..]))
    {
      Swap(a, j, j - 1);
      j := j - 1;
    }
  }

  /** One way to sort by `Less` and `Swap`; only that the result is a descending permutation is
      relied upon, since Go's sort promises no more. */
  method Sort(a: array<Version>)
    modifies a
    ensures Descending(a[..])
    ensures multiset(a[..]) == old(multiset(a[..]))
  {
    for i := 0 to a.Length
      invariant Descending(a[..i])
      invariant multiset(a[..]) == old(multiset(a[..]))
    {
      Insert(a, i);
    }
    assert a[..a.Length] == a[..];
  }

  // ----- choosing the versions to sync

  predicate WantsLatest(kv: KeyVaultObject) {
    kv.objectVersion == "" || kv.objectVersion == "latest"
  }

  /** The first position holding the requested version, or the end if there is none. */
  function FirstMatch(id: string, s: seq<Version>): (k: nat)
    ensures k <= |s| && (k < |s| ==> s[k].id == id)
    ensures forall i :: 0 <= i < k ==> s[i].id != id
  {
    if |s| == 0 || s[0].id == id then 0 else 1 + FirstMatch(id, s[1..])
  }

  function Start(kv: KeyVaultObject, s: seq<Version>): (k: nat)
    ensures k <= |s|
  {
    if WantsLatest(kv) then 0 else FirstMatch(kv.objectVersion, s)
  }

  /** How many versions are synced: one more than the history asks for, since the limit is tested
      after a version has been added, and at least one. */
  function Limit(kv: KeyVaultObject): nat {
    if kv.objectVersionHistory < 0 then 1 else kv.objectVersionHistory as int + 1
  }

  function Count(kv: KeyVaultObject, s: seq<Version>): nat {
    var available := |s| - Start(kv, s);
    if available < Limit(kv) then available else Limit(kv)
  }

  /** The object for version `v` at index `i`; only its alias and version differ. */
  function Indexed(kv: KeyVaultObject, i: nat, v: Version): KeyVaultObject {
    kv.(objectAlias := Paths.Join(kv.GetFileName(), Paths.Itoa(i)), objectVersion := v.id)
  }

  /** The versions to sync out of a sorted list: a contiguous window, numbered from zero. */
  function Window(kv: KeyVaultObject, s: seq<Version>): (r: seq<KeyVaultObject>)
    ensures |r| == Count(kv, s)
    ensures forall i :: 0 <= i < |r| ==> r[i] == Indexed(kv, i, s[Start(kv, s) + i])
  {
    seq(Count(kv, s), i requires 0 <= i < Count(kv, s) => Indexed(kv, i, s[Start(kv, s) + i]))
  }

  /** Sorts the list in place and walks it once. Whatever descending permutation the sort makes of
      the list, the result is the window of that permutation. */
  method GetLatestNKeyVaultObjects(kv: KeyVaultObject, a: array<Version>) returns (objects: seq<KeyVaultObject>)
    modifies a
    ensures Descending(a[..]) && multiset(a[..]) == old(multiset(a[..]))
    ensures objects == Window(kv, a[..])
  {
    var baseFileName := kv.GetFileName();
    Sort(a);
    objects := Walk(kv, baseFileName, a[..]);
  }

  method Walk(kv: KeyVaultObject, baseFileName: string, s: seq<Version>) returns (objects: seq<KeyVaultObject>)
    requires baseFileName == kv.GetFileName()
    ensures objects == Window(kv, s)
  {
    objects := [];
    var foundFirst := kv.objectVersion == "" || kv.objectVersion == "latest";
    for i := 0 to |s|
      invariant foundFirst == (WantsLatest(kv) || Start(kv, s) < i)
      invariant |objects| == (if i < Start(kv, s) then 0 else i - Start(kv, s)) < Limit(kv)
      invariant forall k :: 0 <= k < |objects| ==> objects[k] == Indexed(kv, k, s[Start(kv, s) + k])
    {
      foundFirst := foundFirst || s[i].id == kv.objectVersion;
      if foundFirst {
        var length := |objects|;
        var newObject := kv.(objectAlias := Paths.Join(baseFileName, Paths.Itoa(length)), objectVersion := s[i].id);
        objects := objects + [newObject];
        if length + 1 > kv.objectVersionHistory as int {
          return;
        }
      }
    }
  }
}
