/**
 * The sidebar's list of root folders and files: each URL appears at most once, new roots go
 * at the end, and double-clicking a text file asks for it to be opened.
 */
module Sidebar {
  import opened Wrappers
  import opened FoundationTypes

  /** What the file system reports about a URL (`isDirectory`, and the type checks). */
  datatype FileKind = FileKind(isDirectory: bool, isTextFile: bool, isImageFile: bool)

  /** A `FileItem` returned by `loadDirectory(at:)`, without its children. */
  datatype FileItem = FileItem(id: UUID, url: Url, name: string, isDirectory: bool, isTextFile: bool, isImageFile: bool)

  /** `loadDirectory(at:)` for the root itself: the item keeps the URL it was loaded from. */
  function LoadItem(id: UUID, url: Url, kind: FileKind): (item: FileItem)
    ensures item.id == id && item.url == url && item.name == LastPathComponent(url)
  {
    if kind.isDirectory then FileItem(id, url, LastPathComponent(url), true, false, false)
    else FileItem(id, url, LastPathComponent(url), false, kind.isTextFile, kind.isImageFile)
  }

  predicate HasURL(roots: seq<FileItem>, url: Url) {
    exists i :: 0 <= i < |roots| && roots[i].url == url
  }

  predicate DistinctURLs(roots: seq<FileItem>) {
    forall i, j :: 0 <= i < j < |roots| ==> roots[i].url != roots[j].url
  }

  /** The URLs of `urls` that `addURLs` appends to `roots`: new ones, first occurrence only. */
  function NewURLs(roots: seq<FileItem>, urls: seq<Url>): seq<Url>
    decreases |urls|
  {
    if urls == [] then []
    else
      var init := NewURLs(roots, urls[..|urls| - 1]);
      var url := urls[|urls| - 1];
      if HasURL(roots, url) || url in init then init else init + [url]
  }

  /** The `for` loop of `addURLs` (and of `addFile`), one step per URL. */
  function AddedRoots(roots: seq<FileItem>, urls: seq<Url>, nextID: UUID, kinds: Url -> FileKind): (r: seq<FileItem>)
    ensures |roots| <= |r|
    decreases |urls|
  {
    if urls == [] then roots
    else
      var before := AddedRoots(roots, urls[..|urls| - 1], nextID, kinds);
      var url := urls[|urls| - 1];
      if HasURL(before, url) then before
      else before + [LoadItem(nextID + |before| - |roots|, url, kinds(url))]
  }

  /**
   * `addURLs` keeps the roots it had, in order, and appends one item per URL not already
   * present, in the order given, each with the URL it was requested for.
   */
  lemma {:induction false} AddURLsAppendsNew(roots: seq<FileItem>, urls: seq<Url>, nextID: UUID, kinds: Url -> FileKind)
    ensures var r := AddedRoots(roots, urls, nextID, kinds);
      var added := NewURLs(roots, urls);
      |r| == |roots| + |added| && r[..|roots|] == roots &&
      forall k :: 0 <= k < |added| ==> r[|roots| + k] == LoadItem(nextID + k, added[k], kinds(added[k]))
    decreases |urls|
  {
    if urls != [] {
      var init := urls[..|urls| - 1];
      AddURLsAppendsNew(roots, init, nextID, kinds);
      var before := AddedRoots(roots, init, nextID, kinds);
      var url := urls[|urls| - 1];
      var added := NewURLs(roots, init);
      HasURLAfter(roots, before, added, url);
    }
  }

  lemma HasURLAfter(roots: seq<FileItem>, before: seq<FileItem>, added: seq<Url>, url: Url)
    requires |before| == |roots| + |added| && before[..|roots|] == roots
    requires forall k :: 0 <= k < |added| ==> before[|roots| + k].url == added[k]
    ensures HasURL(before, url) <==> HasURL(roots, url) || url in added
  {
    if HasURL(before, url) {
      var i :| 0 <= i < |before| && before[i].url == url;
      if i < |roots| {
        assert roots[i] == before[i];
      } else {
        assert added[i - |roots|] == url;
      }
    }
    if HasURL(roots, url) {
      var i :| 0 <= i < |roots| && roots[i].url == url;
      assert before[i] == roots[i];
    }
    if url in added {
      var k :| 0 <= k < |added| && added[k] == url;
      assert before[|roots| + k].url == url;
    }
  }

  /** Each of `added` is absent from `roots` and taken from `urls`, and none is listed twice. */
  predicate FreshDistinct(roots: seq<FileItem>, urls: seq<Url>, added: seq<Url>) {
    (forall k :: 0 <= k < |added| ==> !HasURL(roots, added[k]) && added[k] in urls) &&
    (forall k, l :: 0 <= k < l < |added| ==> added[k] != added[l])
  }

  /** The URLs appended are new and pairwise distinct. */
  lemma {:induction false} NewURLsAreNew(roots: seq<FileItem>, urls: seq<Url>)
    ensures FreshDistinct(roots, urls, NewURLs(roots, urls))
    decreases |urls|
  {
    if urls != [] {
      var init := urls[..|urls| - 1];
      NewURLsAreNew(roots, init);
      var before := NewURLs(roots, init);
      var url := urls[|urls| - 1];
      assert forall u :: u in init ==> u in urls;
      if !(HasURL(roots, url) || url in before) {
        var added := before + [url];
        assert NewURLs(roots, urls) == added;
        forall k, l | 0 <= k < l < |added|
          ensures added[k] != added[l]
        {
          assert added[k] == before[k];
          if l == |before| {
            assert before[k] in before;
          } else {
            assert added[l] == before[l];
          }
        }
        forall k | 0 <= k < |added|
          ensures !HasURL(roots, added[k]) && added[k] in urls
        {
          if k < |before| {
            assert added[k] == before[k];
          }
        }
      }
    }
  }

  /** `addURLs` keeps the root URLs pairwise distinct. */
  lemma AddURLsKeepsDistinct(roots: seq<FileItem>, urls: seq<Url>, nextID: UUID, kinds: Url -> FileKind)
    requires DistinctURLs(roots)
    ensures DistinctURLs(AddedRoots(roots, urls, nextID, kinds))
  {
    AddURLsAppendsNew(roots, urls, nextID, kinds);
    NewURLsAreNew(roots, urls);
    var r := AddedRoots(roots, urls, nextID, kinds);
    var added := NewURLs(roots, urls);
    forall i, j | 0 <= i < j < |r|
      ensures r[i].url != r[j].url
    {
      if j >= |roots| {
        assert r[j].url == added[j - |roots|];
        if i < |roots| {
          assert r[i] == roots[i];
        }
      } else {
        assert r[i] == roots[i] && r[j] == roots[j];
      }
    }
  }

  /** `removeAll { $0.id == item.id }`. */
  function RemoveID(roots: seq<FileItem>, id: UUID): (r: seq<FileItem>)
    ensures |r| <= |roots|
  {
    if roots == [] then []
    else if roots[0].id == id then RemoveID(roots[1..], id)
    else [roots[0]] + RemoveID(roots[1..], id)
  }

  /** Exactly the roots with that id are removed. */
  lemma {:induction false} RemoveIDRemovesExactly(roots: seq<FileItem>, id: UUID)
    ensures var r := RemoveID(roots, id);
      (forall i :: 0 <= i < |r| ==> r[i].id != id && r[i] in roots) &&
      (forall item :: item in roots && item.id != id ==> item in r)
    decreases |roots|
  {
    if roots != [] {
      RemoveIDRemovesExactly(roots[1..], id);
      var rest := RemoveID(roots[1..], id);
      var r := RemoveID(roots, id);
      forall i | 0 <= i < |r|
        ensures r[i].id != id && r[i] in roots
      {
        if roots[0].id == id || i > 0 {
          var k := if roots[0].id == id then i else i - 1;
          assert r[i] == rest[k] && rest[k] in roots[1..];
        }
      }
      forall item | item in roots && item.id != id
        ensures item in r
      {
        if item != roots[0] {
          assert item in roots[1..];
        }
      }
    }
  }

  /** Removing distributes over concatenation, so the remaining roots keep their order. */
  lemma {:induction false} RemoveIDDistributes(a: seq<FileItem>, b: seq<FileItem>, id: UUID)
    ensures RemoveID(a + b, id) == RemoveID(a, id) + RemoveID(b, id)
    decreases |a|
  {
    if a != [] {
      assert (a + b)[1..] == a[1..] + b;
      RemoveIDDistributes(a[1..], b, id);
    } else {
      assert a + b == b;
    }
  }

  /** Roots without that id are all kept, in order. */
  predicate NoID(roots: seq<FileItem>, id: UUID) {
    forall i :: 0 <= i < |roots| ==> roots[i].id != id
  }

  lemma {:induction false} RemoveIDAbsent(roots: seq<FileItem>, id: UUID)
    requires NoID(roots, id)
    ensures RemoveID(roots, id) == roots
    decreases |roots|
  {
    if roots != [] {
      assert roots[0].id != id;
      assert NoID(roots[1..], id) by {
        forall j | 0 <= j < |roots[1..]|
          ensures roots[1..][j].id != id
        {
          assert roots[1..][j] == roots[j + 1];
        }
      }
      RemoveIDAbsent(roots[1..], id);
    }
  }

  /** The only root with its id is at `i`. */
  predicate UniqueIDAt(roots: seq<FileItem>, i: nat)
    requires i < |roots|
  {
    forall j :: 0 <= j < |roots| && j != i ==> roots[j].id != roots[i].id
  }

  lemma NoIDAround(roots: seq<FileItem>, i: nat)
    requires i < |roots| && UniqueIDAt(roots, i)
    ensures NoID(roots[..i], roots[i].id) && NoID(roots[i + 1..], roots[i].id)
  {
    var before, after := roots[..i], roots[i + 1..];
    forall j | 0 <= j < |before|
      ensures before[j].id != roots[i].id
    {
      assert before[j] == roots[j];
    }
    forall j | 0 <= j < |after|
      ensures after[j].id != roots[i].id
    {
      assert after[j] == roots[i + 1 + j];
    }
  }

  /** Removing the one root with that id leaves the others exactly, in their order. */
  lemma {:induction false} RemoveIDExactly(roots: seq<FileItem>, i: nat)
    requires i < |roots| && UniqueIDAt(roots, i)
    ensures RemoveID(roots, roots[i].id) == roots[..i] + roots[i + 1..]
    decreases i
  {
    var id := roots[i].id;
    if i == 0 {
      NoIDAround(roots, i);
      RemoveIDAbsent(roots[1..], id);
    } else {
      var tail := roots[1..];
      assert tail[i - 1] == roots[i];
      assert UniqueIDAt(tail, i - 1) by {
        forall j | 0 <= j < |tail| && j != i - 1
          ensures tail[j].id != tail[i - 1].id
        {
          assert tail[j] == roots[j + 1];
        }
      }
      assert roots[0].id != id;
      RemoveIDExactly(tail, i - 1);
      assert roots[..i] == [roots[0]] + tail[..i - 1];
      assert roots[i + 1..] == tail[i..];
    }
  }

  /** Removing a root keeps the root URLs pairwise distinct. */
  lemma {:induction false} RemoveIDKeepsDistinct(roots: seq<FileItem>, id: UUID)
    requires DistinctURLs(roots)
    ensures DistinctURLs(RemoveID(roots, id))
    decreases |roots|
  {
    if roots != [] {
      assert DistinctURLs(roots[1..]);
      RemoveIDKeepsDistinct(roots[1..], id);
      RemoveIDRemovesExactly(roots[1..], id);
      var rest := RemoveID(roots[1..], id);
      forall i | 0 <= i < |rest|
        ensures rest[i].url != roots[0].url
      {
        var k :| 0 <= k < |roots[1..]| && roots[1..][k] == rest[i];
        assert roots[k + 1] == rest[i];
      }
    }
  }

  class SidebarViewModel {
    var roots: seq<FileItem>
    /** Source of the fresh `UUID()` each loaded item gets. */
    var nextID: UUID
    /** The URLs handed to `onFileDoubleClick`, in order. */
    var openRequests: seq<Url>
    /** Whether an `onFileDoubleClick` callback is installed. */
    const hasCallback: bool
    /** What the file system reports about each URL. */
    const kinds: Url -> FileKind

    constructor (kinds: Url -> FileKind, hasCallback: bool)
      ensures roots == [] && openRequests == [] && this.kinds == kinds && this.hasCallback == hasCallback
    {
      roots := [];
      nextID := 0;
      openRequests := [];
      this.kinds := kinds;
      this.hasCallback := hasCallback;
    }

    method AddURLs(urls: seq<Url>)
      modifies this
      ensures roots == AddedRoots(old(roots), urls, old(nextID), kinds)
      ensures nextID == old(nextID) + |roots| - |old(roots)| && openRequests == old(openRequests)
    {
      for i := 0 to |urls|
        invariant roots == AddedRoots(old(roots), urls[..i], old(nextID), kinds)
        invariant |old(roots)| <= |roots| && nextID == old(nextID) + |roots| - |old(roots)|
        invariant openRequests == old(openRequests)
      {
        assert urls[..i + 1][..i] == urls[..i];
        var url := urls[i];
        if HasURL(roots, url) {
          continue;
        }
        var item := LoadItem(nextID, url, kinds(url));
        roots := roots + [item];
        nextID := nextID + 1;
      }
      assert urls[..|urls|] == urls;
    }

    /** `addFile()` after the open panel closed: `None` when it was cancelled. */
    method AddFile(chosen: Option<seq<Url>>)
      modifies this
      ensures chosen.None? ==> roots == old(roots) && nextID == old(nextID)
      ensures chosen.Some? ==> roots == AddedRoots(old(roots), chosen.value, old(nextID), kinds)
      ensures nextID == old(nextID) + |roots| - |old(roots)| && openRequests == old(openRequests)
    {
      if chosen.None? {
        return;
      }
      AddURLs(chosen.value);
    }

    /** `addDirectory()` after the open panel closed: `None` when it was cancelled. */
    method AddDirectory(chosen: Option<Url>)
      modifies this
      ensures chosen.None? || HasURL(old(roots), chosen.value) ==> roots == old(roots) && nextID == old(nextID)
      ensures chosen.Some? && !HasURL(old(roots), chosen.value) ==>
        roots == old(roots) + [LoadItem(old(nextID), chosen.value, kinds(chosen.value))] && nextID == old(nextID) + 1
      ensures openRequests == old(openRequests)
    {
      if chosen.None? {
        return;
      }
      var url := chosen.value;
      if HasURL(roots, url) {
        return;
      }
      var item := LoadItem(nextID, url, kinds(url));
      roots := roots + [item];
      nextID := nextID + 1;
    }

    method RemoveRoot(item: FileItem)
      modifies this`roots
      ensures roots == RemoveID(old(roots), item.id)
    {
      roots := RemoveID(roots, item.id);
    }

    /** Appends the item's URL to `openRequests`, for text files only, when a callback is set. */
    method HandleDoubleClick(item: FileItem)
      modifies this`openRequests
      ensures openRequests == if !item.isDirectory && item.isTextFile && hasCallback then old(openRequests) + [item.url] else old(openRequests)
    {
      if item.isDirectory || !item.isTextFile {
        return;
      }
      if hasCallback {
        openRequests := openRequests + [item.url];
      }
    }
  }
}
