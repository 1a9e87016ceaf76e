/**
 * The most-recently-used lists of files and folders: each holds at most ten entries, newest
 * first, one entry per URL.
 */
module RecentItems {
  import opened FoundationTypes

  const MaxItems: nat := 10

  datatype RecentItem = RecentItem(id: UUID, url: Url, name: string)

  /** `removeAll { $0.url == url }`. */
  function WithoutURL(list: seq<RecentItem>, url: Url): (r: seq<RecentItem>)
    ensures |r| <= |list|
    ensures forall i :: 0 <= i < |r| ==> r[i].url != url && r[i] in list
    ensures forall item :: item in list && item.url != url ==> item in r
  {
    if list == [] then []
    else if list[0].url == url then WithoutURL(list[1..], url)
    else [list[0]] + WithoutURL(list[1..], url)
  }

  /** `addRecent(url:to:key:)` on the list: remove the URL, insert it at the front, keep ten. */
  function AddRecent(list: seq<RecentItem>, item: RecentItem): seq<RecentItem> {
    var inserted := [item] + WithoutURL(list, item.url);
    if |inserted| > MaxItems then inserted[..MaxItems] else inserted
  }

  /** No URL is listed twice. */
  predicate DistinctURLs(list: seq<RecentItem>) {
    forall i, j :: 0 <= i < j < |list| ==> list[i].url != list[j].url
  }

  /**
   * After adding, the URL is first and listed exactly once, the list holds at most ten
   * entries, and the rest are the earlier entries for other URLs, in their order, with only
   * the oldest dropped.
   */
  lemma AddRecentPutsFirst(list: seq<RecentItem>, item: RecentItem)
    ensures var r := AddRecent(list, item);
      |r| <= MaxItems && r != [] && r[0] == item &&
      (forall i :: 0 < i < |r| ==> r[i].url != item.url) &&
      r[1..] == WithoutURL(list, item.url)[..|r| - 1]
  {
  }

  /** Adding keeps the URLs distinct. */
  lemma {:induction false} AddRecentKeepsDistinct(list: seq<RecentItem>, item: RecentItem)
    requires DistinctURLs(list)
    ensures DistinctURLs(AddRecent(list, item))
  {
    WithoutURLKeepsDistinct(list, item.url);
    var inserted := [item] + WithoutURL(list, item.url);
    assert DistinctURLs(inserted);
  }

  lemma {:induction false} WithoutURLKeepsDistinct(list: seq<RecentItem>, url: Url)
    requires DistinctURLs(list)
    ensures DistinctURLs(WithoutURL(list, url))
    decreases |list|
  {
    if list != [] {
      assert DistinctURLs(list[1..]);
      WithoutURLKeepsDistinct(list[1..], url);
      var rest := WithoutURL(list[1..], url);
      forall i | 0 <= i < |rest|
        ensures rest[i].url != list[0].url
      {
        var k :| 0 <= k < |list[1..]| && list[1..][k] == rest[i];
        assert list[k + 1] == rest[i];
      }
    }
  }

  class RecentItemsManager {
    var recentFiles: seq<RecentItem>
    var recentFolders: seq<RecentItem>
    /** Source of the fresh `UUID()` each new entry gets. */
    var nextID: UUID

    /** `init()`, given the URLs the stored bookmarks resolve to, in stored order. */
    constructor (files: seq<Url>, folders: seq<Url>)
      ensures |recentFiles| == |files| && |recentFolders| == |folders|
      ensures forall i :: 0 <= i < |files| ==> recentFiles[i].url == files[i] && recentFiles[i].name == LastPathComponent(files[i])
      ensures forall i :: 0 <= i < |folders| ==> recentFolders[i].url == folders[i] && recentFolders[i].name == LastPathComponent(folders[i])
    {
      var id := 0;
      var loaded := [];
      for i := 0 to |files|
        invariant |loaded| == i && id == i
        invariant forall k :: 0 <= k < i ==> loaded[k] == RecentItem(k, files[k], LastPathComponent(files[k]))
      {
        loaded := loaded + [RecentItem(id, files[i], LastPathComponent(files[i]))];
        id := id + 1;
      }
      recentFiles := loaded;
      loaded := [];
      for i := 0 to |folders|
        invariant |loaded| == i
        invariant forall k :: 0 <= k < i ==> loaded[k].url == folders[k] && loaded[k].name == LastPathComponent(folders[k])
      {
        loaded := loaded + [RecentItem(id, folders[i], LastPathComponent(folders[i]))];
        id := id + 1;
      }
      recentFolders := loaded;
      nextID := id;
    }

    method AddRecentFile(url: Url)
      modifies this
      ensures recentFiles == AddRecent(old(recentFiles), RecentItem(old(nextID), url, LastPathComponent(url)))
      ensures recentFolders == old(recentFolders) && nextID == old(nextID) + 1
    {
      recentFiles := AddRecentTo(recentFiles, url, nextID);
      nextID := nextID + 1;
    }

    method AddRecentFolder(url: Url)
      modifies this
      ensures recentFolders == AddRecent(old(recentFolders), RecentItem(old(nextID), url, LastPathComponent(url)))
      ensures recentFiles == old(recentFiles) && nextID == old(nextID) + 1
    {
      recentFolders := AddRecentTo(recentFolders, url, nextID);
      nextID := nextID + 1;
    }

    method ClearAll()
      modifies this
      ensures recentFiles == [] && recentFolders == [] && nextID == old(nextID)
    {
      recentFiles := [];
      recentFolders := [];
    }
  }

  /** The body of `addRecent` on its `inout` list. */
  method AddRecentTo(list: seq<RecentItem>, url: Url, id: UUID) returns (updated: seq<RecentItem>)
    ensures updated == AddRecent(list, RecentItem(id, url, LastPathComponent(url)))
  {
    updated := WithoutURL(list, url);
    updated := [RecentItem(id, url, LastPathComponent(url))] + updated;
    if |updated| > MaxItems {
      updated := updated[..MaxItems];
    }
  }
}
