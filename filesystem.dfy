/** The sync CLI's in-memory views of a repository (crates/client-cli/src/content/filesystem.rs):
    `RemoteFilesystem`, an index of the server's items by id with parent-to-children sets,
    and `LocalFilesystem`, the tree of items found on disk. Both look items up by the
    components of a relative path.

    Items are values here: a remote item is stored under its id, and a local item is a
    tree of its children. The parent links that `fix_parents_for` writes into local items
    are a map from an item's id to its parent's id; ids stand for object identity. Item
    names come from `name.plain()`, which can fail: `None` is such a name. The `HashSet`s
    of the remote index are sequences without repetition, iterated in insertion order. */
module Filesystem {
  import opened JsValues

  type ItemId = nat

  datatype LookupError = EmptyPath | InvalidPath | NameError | NotFound

  /** Lines 58-62 and 161-165: the first path component that is not `.`, and the rest. */
  function StripDots(path: seq<string>): (r: Result<(string, seq<string>), LookupError>)
    ensures path == [] ==> r == Err(EmptyPath)
    ensures (forall i :: 0 <= i < |path| ==> path[i] == ".") && path != [] ==> r == Err(InvalidPath)
    ensures r.Ok? ==>
              var (p, rest) := r.value;
              && p != "." && |rest| < |path|
              && path == path[..|path| - |rest| - 1] + [p] + rest
              && forall i :: 0 <= i < |path| - |rest| - 1 ==> path[i] == "."
  {
    if path == [] then Err(EmptyPath)
    else if path[0] == "." then
      if |path| == 1 then Err(InvalidPath)
      else
        var r := StripDots(path[1..]);
        if r.Ok? then
          assert path == [path[0]] + path[1..];
          r
        else r
    else
      assert path == path[..0] + [path[0]] + path[1..];
      Ok((path[0], path[1..]))
  }

  /** Leading `.` components change nothing once a real component follows. */
  lemma StripLeadingDot(path: seq<string>)
    requires path != []
    ensures StripDots(["."] + path) == StripDots(path)
  {
    assert (["."] + path)[1..] == path;
  }

  predicate NoDuplicates(ids: seq<ItemId>) {
    forall i, j :: 0 <= i < j < |ids| ==> ids[i] != ids[j]
  }

  /** `HashSet::insert` on a set kept in insertion order. */
  function Insert(ids: seq<ItemId>, id: ItemId): (r: seq<ItemId>)
    ensures NoDuplicates(ids) ==> NoDuplicates(r)
    ensures forall x :: x in r <==> x in ids || x == id
  {
    if id in ids then ids else ids + [id]
  }

  /** An item of the server's tree as the index stores it. */
  datatype RemoteItem = RemoteItem(id: ItemId, name: Option<string>, parentItem: Option<ItemId>)

  class RemoteFilesystem {
    var items: map<ItemId, RemoteItem>
    var children: map<ItemId, seq<ItemId>>
    var roots: seq<ItemId>

    /** Every listed id is stored, and no set lists an id twice. */
    ghost predicate Valid()
      reads this
    {
      && NoDuplicates(roots) && (forall i :: 0 <= i < |roots| ==> roots[i] in items)
      && forall p :: p in children ==>
           NoDuplicates(children[p]) && forall i :: 0 <= i < |children[p]| ==> children[p][i] in items
    }

    constructor ()
      ensures Valid() && items == map[] && children == map[] && roots == []
    {
      items, children, roots := map[], map[], [];
    }

    /** Lines 24-39: a parentless item joins `roots`, any other its parent's children set
        (created if absent); the item is stored under its id in both cases. */
    method AddItem(item: RemoteItem)
      requires Valid()
      modifies this
      ensures Valid()
      ensures items == old(items)[item.id := item]
      ensures item.parentItem.None? ==> roots == Insert(old(roots), item.id) && children == old(children)
      ensures item.parentItem.Some? ==>
                var p := item.parentItem.value;
                && roots == old(roots)
                && children == old(children)[p := Insert(if p in old(children) then old(children)[p] else [], item.id)]
      ensures FindItem(item.id) == Some(item)
      ensures forall other :: other != item.id ==> FindItem(other) == old(FindItem(other))
    {
      match item.parentItem {
        case None =>
          roots := Insert(roots, item.id);
        case Some(parent) =>
          var siblings := if parent in children then children[parent] else [];
          children := children[parent := Insert(siblings, item.id)];
      }
      items := items[item.id := item];
    }

    /** Lines 41-43. */
    function FindItem(id: ItemId): (r: Option<RemoteItem>)
      reads this
      ensures r.Some? <==> id in items
      ensures r.Some? ==> r.value == items[id]
    {
      if id in items then Some(items[id]) else None
    }

    /** The stored items of `ids`, in order, or an error for the first id that is not stored. */
    function CollectItems(ids: seq<ItemId>): (r: Result<seq<RemoteItem>, LookupError>)
      reads this
      ensures r.Ok? <==> forall i :: 0 <= i < |ids| ==> ids[i] in items
      ensures r.Ok? ==> |r.value| == |ids| && forall i :: 0 <= i < |ids| ==> r.value[i] == items[ids[i]]
    {
      if ids == [] then Ok([])
      else if ids[0] !in items then Err(NotFound)
      else
        var rest := CollectItems(ids[1..]);
        if rest.Err? then rest else Ok([items[ids[0]]] + rest.value)
    }

    /** Lines 45-54: no children entry gives no children; a listed child that is not stored
        is an error. */
    function GetChildren(id: ItemId): (r: Result<seq<RemoteItem>, LookupError>)
      reads this
      ensures id !in children ==> r == Ok([])
      ensures id in children ==> (r.Ok? <==> forall k :: 0 <= k < |children[id]| ==> children[id][k] in items)
      ensures r.Ok? && id in children ==>
                |r.value| == |children[id]| && forall k :: 0 <= k < |r.value| ==> r.value[k] == items[children[id][k]]
    {
      if id in children then CollectItems(children[id]) else Ok([])
    }

    /** Lines 102-104, with the lookup of lines 56-89 as the `HashSet` iteration is meant to
        work (see `RemoteFind`). */
    function FindFromPath(path: seq<string>): (r: Result<Option<RemoteItem>, LookupError>)
      reads this
      ensures r.Ok? ==> path != [] && r.value.Some? && r.value.value.name == Some(path[|path| - 1])
      ensures r.Ok? ==> r.value.value in items.Values
    {
      RemoteFind(items, children, path, roots)
    }
  }

  /** In a valid index, listing the children of any id succeeds. */
  lemma GetChildrenTotal(fs: RemoteFilesystem, id: ItemId)
    requires fs.Valid()
    ensures fs.GetChildren(id).Ok?
    ensures id in fs.children ==> |fs.GetChildren(id).value| == |fs.children[id]|
    ensures id !in fs.children ==> fs.GetChildren(id) == Ok([])
  {
  }

  /** The lookup of lines 56-89 over the stored `items` and `children` sets, starting from
      the candidate ids (the roots, then a children set). A name match on the last component
      is the result; a match with a children entry commits to searching it with the
      remaining components; a match without one is passed over and the next candidate is
      tried with the same remaining components. */
  function RemoteFind(items: map<ItemId, RemoteItem>, children: map<ItemId, seq<ItemId>>,
                      path: seq<string>, candidates: seq<ItemId>): (r: Result<Option<RemoteItem>, LookupError>)
    ensures r.Ok? ==> path != [] && r.value.Some? && r.value.value.name == Some(path[|path| - 1])
    ensures r.Ok? ==> r.value.value in items.Values
    decreases |path|, |candidates| + 1
  {
    match StripDots(path)
    case Err(e) => Err(e)
    case Ok(pr) => RemoteScan(items, children, pr.0, pr.1, candidates, 0)
  }

  /** The `for item_id in items` loop from position `i` on, looking for `p` with `rest`
      still to follow. */
  function RemoteScan(items: map<ItemId, RemoteItem>, children: map<ItemId, seq<ItemId>>,
                      p: string, rest: seq<string>, candidates: seq<ItemId>, i: nat): (r: Result<Option<RemoteItem>, LookupError>)
    requires i <= |candidates|
    ensures r.Ok? ==> r.value.Some? && r.value.value.name == Some(if rest == [] then p else rest[|rest| - 1])
    ensures r.Ok? ==> r.value.value in items.Values
    decreases |rest| + 1, |candidates| - i
  {
    if i == |candidates| then Err(NotFound)
    else if candidates[i] !in items then RemoteScan(items, children, p, rest, candidates, i + 1)
    else
      var item := items[candidates[i]];
      if item.name.None? then Err(NameError)
      else if item.name.value != p then RemoteScan(items, children, p, rest, candidates, i + 1)
      else if rest == [] then Ok(Some(item))
      else if candidates[i] in children then RemoteFind(items, children, rest, children[candidates[i]])
      else RemoteScan(items, children, p, rest, candidates, i + 1)
  }

  /** The same lookup as written: the test `path_iter.next()` (line 70) consumes a component
      even when the matched item has no children entry, so the next candidate of the same
      name is tried with one component fewer. */
  function RemoteFindAsWritten(items: map<ItemId, RemoteItem>, children: map<ItemId, seq<ItemId>>,
                               path: seq<string>, candidates: seq<ItemId>): (r: Result<Option<RemoteItem>, LookupError>)
    ensures r.Ok? ==> r.value.Some? && r.value.value in items.Values
    decreases |path|, |candidates| + 1
  {
    match StripDots(path)
    case Err(e) => Err(e)
    case Ok(pr) => RemoteScanAsWritten(items, children, pr.0, pr.1, candidates, 0)
  }

  function RemoteScanAsWritten(items: map<ItemId, RemoteItem>, children: map<ItemId, seq<ItemId>>,
                               p: string, rest: seq<string>, candidates: seq<ItemId>, i: nat): (r: Result<Option<RemoteItem>, LookupError>)
    requires i <= |candidates|
    ensures r.Ok? ==> r.value.Some? && r.value.value in items.Values
    decreases |rest| + 1, |candidates| - i
  {
    if i == |candidates| then Err(NotFound)
    else if candidates[i] !in items then RemoteScanAsWritten(items, children, p, rest, candidates, i + 1)
    else
      var item := items[candidates[i]];
      if item.name.None? then Err(NameError)
      else if item.name.value != p then RemoteScanAsWritten(items, children, p, rest, candidates, i + 1)
      else if rest == [] then Ok(Some(item))
      else if candidates[i] in children then RemoteFindAsWritten(items, children, rest, children[candidates[i]])
      else RemoteScanAsWritten(items, children, p, rest[1..], candidates, i + 1)
  }

  /** Two roots named `a`, the first without children, the second with a child `b`: as
      written, looking up `a/b` returns the second `a` itself; the intended lookup finds `b`. */
  lemma RemoteLookupSkipsComponent()
    ensures var a1, a2, b := RemoteItem(1, Some("a"), None), RemoteItem(2, Some("a"), None), RemoteItem(3, Some("b"), Some(2));
            var items := map[1 := a1, 2 := a2, 3 := b];
            var children := map[2 := [3]];
            && RemoteFindAsWritten(items, children, ["a", "b"], [1, 2]) == Ok(Some(a2))
            && RemoteFind(items, children, ["a", "b"], [1, 2]) == Ok(Some(b))
  {
    var a1, a2, b := RemoteItem(1, Some("a"), None), RemoteItem(2, Some("a"), None), RemoteItem(3, Some("b"), Some(2));
    var items := map[1 := a1, 2 := a2, 3 := b];
    var children := map[2 := [3]];
    assert StripDots(["a", "b"]) == Ok(("a", ["b"]));
    assert StripDots(["b"]) == Ok(("b", []));
    assert RemoteScanAsWritten(items, children, "a", [], [1, 2], 1) == Ok(Some(a2));
    assert RemoteScan(items, children, "b", [], [3], 0) == Ok(Some(b));
  }

  /** A one-component path finds the first candidate bearing that name, provided the
      candidates before it are unstored or have a readable, different name. */
  lemma RemoteFindFirst(items: map<ItemId, RemoteItem>, children: map<ItemId, seq<ItemId>>,
                        p: string, candidates: seq<ItemId>, k: nat)
    requires p != "."
    requires k < |candidates| && candidates[k] in items && items[candidates[k]].name == Some(p)
    requires forall j :: 0 <= j < k ==>
               candidates[j] !in items || (items[candidates[j]].name.Some? && items[candidates[j]].name != Some(p))
    ensures RemoteFind(items, children, [p], candidates) == Ok(Some(items[candidates[k]]))
  {
    assert StripDots([p]) == Ok((p, []));
    RemoteScanTo(items, children, p, [], candidates, 0, k);
  }

  /** Candidates that are unstored or named differently are passed over. */
  lemma {:induction false} RemoteScanTo(items: map<ItemId, RemoteItem>, children: map<ItemId, seq<ItemId>>,
                                        p: string, rest: seq<string>, candidates: seq<ItemId>, i: nat, k: nat)
    requires i <= k <= |candidates|
    requires forall j :: i <= j < k ==>
               candidates[j] !in items || (items[candidates[j]].name.Some? && items[candidates[j]].name != Some(p))
    ensures RemoteScan(items, children, p, rest, candidates, i) == RemoteScan(items, children, p, rest, candidates, k)
    decreases k - i
  {
    if i < k {
      RemoteScanTo(items, children, p, rest, candidates, i + 1, k);
    }
  }

  /** Remote lookup reports a missing item as an error, never as `Ok(None)`. */
  lemma RemoteNotFound(items: map<ItemId, RemoteItem>, children: map<ItemId, seq<ItemId>>,
                       p: string, candidates: seq<ItemId>)
    requires p != "."
    requires forall j :: 0 <= j < |candidates| ==>
               candidates[j] !in items || (items[candidates[j]].name.Some? && items[candidates[j]].name != Some(p))
    ensures RemoteFind(items, children, [p], candidates) == Err(NotFound)
  {
    assert StripDots([p]) == Ok((p, []));
    RemoteScanTo(items, children, p, [], candidates, 0, |candidates|);
  }

  /** The two lookups agree when every stored item has a children entry: they differ only
      where a matched item without one is passed over. */
  lemma {:induction false} RemoteLookupsAgree(items: map<ItemId, RemoteItem>, children: map<ItemId, seq<ItemId>>,
                                              path: seq<string>, candidates: seq<ItemId>)
    requires forall id :: id in items ==> id in children
    ensures RemoteFindAsWritten(items, children, path, candidates) == RemoteFind(items, children, path, candidates)
    decreases |path|, |candidates| + 1
  {
    match StripDots(path)
    case Err(_) =>
    case Ok(pr) => RemoteScansAgree(items, children, pr.0, pr.1, candidates, 0);
  }

  lemma {:induction false} RemoteScansAgree(items: map<ItemId, RemoteItem>, children: map<ItemId, seq<ItemId>>,
                                            p: string, rest: seq<string>, candidates: seq<ItemId>, i: nat)
    requires i <= |candidates|
    requires forall id :: id in items ==> id in children
    ensures RemoteScanAsWritten(items, children, p, rest, candidates, i) == RemoteScan(items, children, p, rest, candidates, i)
    decreases |rest| + 1, |candidates| - i
  {
    if i < |candidates| {
      if candidates[i] !in items || items[candidates[i]].name.None? || items[candidates[i]].name.value != p {
        RemoteScansAgree(items, children, p, rest, candidates, i + 1);
      } else if rest != [] {
        RemoteLookupsAgree(items, children, rest, children[candidates[i]]);
      }
    }
  }

  /** A local item: its name, its id (its identity) and its children, in order. */
  datatype LocalItem = LocalItem(id: ItemId, name: Option<string>, children: seq<LocalItem>)

  /** Lines 159-181: the first item whose name is the component is committed to; there is
      no backtracking to later items of the same name, and not found is `Ok(None)`. */
  function LocalFind(path: seq<string>, items: seq<LocalItem>): (r: Result<Option<LocalItem>, LookupError>)
    ensures r.Ok? && r.value.Some? ==> path != [] && r.value.value.name == Some(path[|path| - 1])
    decreases items, 1
  {
    match StripDots(path)
    case Err(e) => Err(e)
    case Ok(pr) => LocalScan(pr.0, pr.1, items)
  }

  function LocalScan(p: string, rest: seq<string>, items: seq<LocalItem>): (r: Result<Option<LocalItem>, LookupError>)
    ensures r.Ok? && r.value.Some? ==> r.value.value.name == Some(if rest == [] then p else rest[|rest| - 1])
    decreases items, 0
  {
    if items == [] then Ok(None)
    else if items[0].name.None? then Err(NameError)
    else if items[0].name.value == p then
      if rest == [] then Ok(Some(items[0])) else LocalFind(rest, items[0].children)
    else LocalScan(p, rest, items[1..])
  }

  /** The first item named after the component decides the lookup. */
  lemma {:induction false} LocalFindCommits(p: string, rest: seq<string>, items: seq<LocalItem>, k: nat)
    requires k < |items| && items[k].name == Some(p)
    requires forall j :: 0 <= j < k ==> items[j].name.Some? && items[j].name != Some(p)
    ensures LocalScan(p, rest, items) == if rest == [] then Ok(Some(items[k])) else LocalFind(rest, items[k].children)
    decreases k
  {
    if k > 0 {
      LocalFindCommits(p, rest, items[1..], k - 1);
    }
  }

  /** Local lookup reports a missing item as `Ok(None)`. */
  lemma {:induction false} LocalNotFound(p: string, rest: seq<string>, items: seq<LocalItem>)
    requires forall j :: 0 <= j < |items| ==> items[j].name.Some? && items[j].name != Some(p)
    ensures LocalScan(p, rest, items) == Ok(None)
    decreases |items|
  {
    if items != [] {
      LocalNotFound(p, rest, items[1..]);
    }
  }

  /** Two roots named `a`, only the second with a child `b`: `a/b` is not found, because the
      first `a` is committed to. */
  lemma LocalNoBacktracking()
    ensures var b := LocalItem(3, Some("b"), []);
            var roots := [LocalItem(1, Some("a"), []), LocalItem(2, Some("a"), [b])];
            LocalFind(["a", "b"], roots) == Ok(None) && LocalFind(["a", "b"], roots[1..]) == Ok(Some(b))
  {
    var b := LocalItem(3, Some("b"), []);
    assert StripDots(["a", "b"]) == Ok(("a", ["b"]));
    assert StripDots(["b"]) == Ok(("b", []));
    assert LocalFind(["b"], []) == Ok(None);
    assert LocalFind(["b"], [b]) == Ok(Some(b));
  }

  /** The ids of a forest and of all its descendants. */
  function Ids(items: seq<LocalItem>): set<ItemId>
    decreases items
  {
    if items == [] then {}
    else Ids(items[..|items| - 1]) + {items[|items| - 1].id} + Ids(items[|items| - 1].children)
  }

  /** No id occurs twice in the forest. */
  predicate UniqueIds(items: seq<LocalItem>)
    decreases items
  {
    items == [] ||
      var init, last := items[..|items| - 1], items[|items| - 1];
      && UniqueIds(init) && UniqueIds(last.children)
      && last.id !in Ids(init) && last.id !in Ids(last.children)
      && Ids(init) !! Ids(last.children)
  }

  /** Every item of the forest `items`, whose parent is `parentId`, has its parent link set
      to it, and so on down the tree. */
  predicate Parented(links: map<ItemId, ItemId>, parentId: ItemId, items: seq<LocalItem>)
    decreases items
  {
    items == [] ||
      var init, last := items[..|items| - 1], items[|items| - 1];
      && Parented(links, parentId, init)
      && last.id in links && links[last.id] == parentId
      && Parented(links, last.id, last.children)
  }

  /** The parent links `fix_parents_for(parent)` leaves, for a parent with the given id and
      children (lines 216-227): each child gets the parent, then its own subtree is fixed. */
  function FixChildren(parentId: ItemId, items: seq<LocalItem>, links: map<ItemId, ItemId>): map<ItemId, ItemId>
    decreases items
  {
    if items == [] then links
    else
      var last := items[|items| - 1];
      var before := FixChildren(parentId, items[..|items| - 1], links);
      FixChildren(last.id, last.children, before[last.id := parentId])
  }

  /** `post_deserialize` (lines 210-214): fix every root. */
  function FixRoots(roots: seq<LocalItem>, links: map<ItemId, ItemId>): map<ItemId, ItemId>
    decreases roots
  {
    if roots == [] then links
    else
      var last := roots[|roots| - 1];
      FixChildren(last.id, last.children, FixRoots(roots[..|roots| - 1], links))
  }

  /** Links of ids outside a forest play no part in whether it is parented. */
  lemma {:induction false} ParentedFrame(a: map<ItemId, ItemId>, b: map<ItemId, ItemId>, parentId: ItemId, items: seq<LocalItem>)
    requires Parented(a, parentId, items)
    requires forall k :: k in Ids(items) && k in a ==> k in b && b[k] == a[k]
    ensures Parented(b, parentId, items)
    decreases items
  {
    if items != [] {
      var init, last := items[..|items| - 1], items[|items| - 1];
      ParentedFrame(a, b, parentId, init);
      ParentedFrame(a, b, last.id, last.children);
    }
  }

  /** Fixing a forest of unique ids links every item to its parent and leaves the links of
      every other id as they were. */
  lemma {:induction false} FixChildrenCorrect(parentId: ItemId, items: seq<LocalItem>, links: map<ItemId, ItemId>)
    requires UniqueIds(items)
    ensures Parented(FixChildren(parentId, items, links), parentId, items)
    ensures forall k :: k !in Ids(items) ==>
              (k in FixChildren(parentId, items, links) <==> k in links) &&
              (k in links ==> FixChildren(parentId, items, links)[k] == links[k])
    decreases items
  {
    if items != [] {
      var init, last := items[..|items| - 1], items[|items| - 1];
      FixChildrenCorrect(parentId, init, links);
      var before := FixChildren(parentId, init, links);
      var step := before[last.id := parentId];
      FixChildrenCorrect(last.id, last.children, step);
      var after := FixChildren(last.id, last.children, step);
      forall k | k in Ids(init) && k in before ensures k in after && after[k] == before[k] {
        assert k != last.id && k !in Ids(last.children);
      }
      ParentedFrame(before, after, parentId, init);
      assert last.id in after && after[last.id] == parentId;
    }
  }

  lemma {:induction false} IdsContain(items: seq<LocalItem>, i: nat)
    requires i < |items|
    ensures items[i].id in Ids(items) && Ids(items[i].children) <= Ids(items)
    decreases items
  {
    if i < |items| - 1 {
      IdsContain(items[..|items| - 1], i);
      assert items[..|items| - 1][i] == items[i];
    }
  }

  /** Every root's subtree is linked, provided ids are unique. */
  predicate RootsParented(links: map<ItemId, ItemId>, roots: seq<LocalItem>)
    decreases roots
  {
    roots == [] ||
      var last := roots[|roots| - 1];
      RootsParented(links, roots[..|roots| - 1]) && Parented(links, last.id, last.children)
  }

  lemma {:induction false} RootsParentedFrame(a: map<ItemId, ItemId>, b: map<ItemId, ItemId>, roots: seq<LocalItem>)
    requires RootsParented(a, roots)
    requires forall k :: k in Ids(roots) && k in a ==> k in b && b[k] == a[k]
    ensures RootsParented(b, roots)
    decreases roots
  {
    if roots != [] {
      var last := roots[|roots| - 1];
      RootsParentedFrame(a, b, roots[..|roots| - 1]);
      ParentedFrame(a, b, last.id, last.children);
    }
  }

  /** After `post_deserialize` on a forest of unique ids, every child's parent link names the
      item whose children list contains it; the links of ids outside the forest and of the
      roots themselves are untouched. */
  lemma {:induction false} PostDeserializeLinksParents(roots: seq<LocalItem>, links: map<ItemId, ItemId>)
    requires UniqueIds(roots)
    ensures RootsParented(FixRoots(roots, links), roots)
    ensures forall k :: k !in Ids(roots) ==>
              (k in FixRoots(roots, links) <==> k in links) &&
              (k in links ==> FixRoots(roots, links)[k] == links[k])
    ensures forall i :: 0 <= i < |roots| ==>
              (roots[i].id in FixRoots(roots, links) <==> roots[i].id in links) &&
              (roots[i].id in links ==> FixRoots(roots, links)[roots[i].id] == links[roots[i].id])
    decreases roots
  {
    if roots != [] {
      var init, last := roots[..|roots| - 1], roots[|roots| - 1];
      PostDeserializeLinksParents(init, links);
      var before := FixRoots(init, links);
      FixChildrenCorrect(last.id, last.children, before);
      var after := FixRoots(roots, links);
      forall k | k in Ids(init) && k in before ensures k in after && after[k] == before[k] {
        assert k !in Ids(last.children);
      }
      RootsParentedFrame(before, after, init);
      forall i | 0 <= i < |roots|
        ensures (roots[i].id in after <==> roots[i].id in links)
        ensures roots[i].id in links ==> after[roots[i].id] == links[roots[i].id]
      {
        if i < |init| {
          assert roots[i] == init[i];
          IdsContain(init, i);
          assert roots[i].id !in Ids(last.children);
        } else {
          assert roots[i] == last;
          assert last.id !in Ids(init);
        }
      }
    }
  }

  /** Lines 193-200 on the root list: the first root with the item's name is removed; an
      unreadable name stops the search with an error. */
  function RemoveFirstNamed(roots: seq<LocalItem>, name: Option<string>): (r: Result<seq<LocalItem>, LookupError>)
  {
    if roots == [] then Ok([])
    else if roots[0].name.None? || name.None? then Err(NameError)
    else if roots[0].name == name then Ok(roots[1..])
    else
      var rest := RemoveFirstNamed(roots[1..], name);
      if rest.Err? then rest else Ok([roots[0]] + rest.value)
  }

  /** Only the first root of the name goes; the others stay, in order. */
  lemma {:induction false} RemoveFirstNamedAt(roots: seq<LocalItem>, name: string, k: nat)
    requires k < |roots| && roots[k].name == Some(name)
    requires forall j :: 0 <= j < k ==> roots[j].name.Some? && roots[j].name != Some(name)
    ensures RemoveFirstNamed(roots, Some(name)) == Ok(roots[..k] + roots[k + 1..])
    decreases k
  {
    if k > 0 {
      RemoveFirstNamedAt(roots[1..], name, k - 1);
      assert roots[1..][..k - 1] == roots[1..k];
      assert roots[1..][k..] == roots[k + 1..];
      assert roots[..k] == [roots[0]] + roots[1..k];
      assert roots[0].name.Some? && roots[0].name != Some(name);
      assert roots[..k] + roots[k + 1..] == [roots[0]] + (roots[1..k] + roots[k + 1..]);
    } else {
      assert roots[..k] + roots[k + 1..] == roots[1..];
    }
  }

  /** A name no root bears leaves the roots as they are. */
  lemma {:induction false} RemoveFirstNamedAbsent(roots: seq<LocalItem>, name: string)
    requires forall j :: 0 <= j < |roots| ==> roots[j].name.Some? && roots[j].name != Some(name)
    ensures RemoveFirstNamed(roots, Some(name)) == Ok(roots)
    decreases |roots|
  {
    if roots != [] {
      RemoveFirstNamedAbsent(roots[1..], name);
      assert [roots[0]] + roots[1..] == roots;
    }
  }

  /** `prefix` put in front of a successful result. */
  function PrefixThen(prefix: seq<LocalItem>, r: Result<seq<LocalItem>, LookupError>): Result<seq<LocalItem>, LookupError> {
    if r.Err? then r else Ok(prefix + r.value)
  }

  /** One step of the scan over the roots from position `i`: the root there either decides
      the removal or is moved into the prefix. */
  lemma RemoveScanStep(roots: seq<LocalItem>, i: nat, name: Option<string>)
    requires i < |roots|
    ensures var here := PrefixThen(roots[..i], RemoveFirstNamed(roots[i..], name));
            && (roots[i].name.None? || name.None? ==> here == Err(NameError))
            && (roots[i].name.Some? && name.Some? && roots[i].name == name ==> here == Ok(roots[..i] + roots[i + 1..]))
            && (roots[i].name.Some? && name.Some? && roots[i].name != name ==>
                  here == PrefixThen(roots[..i + 1], RemoveFirstNamed(roots[i + 1..], name)))
  {
    assert roots[i..][0] == roots[i] && roots[i..][1..] == roots[i + 1..];
    var tail := RemoveFirstNamed(roots[i + 1..], name);
    if tail.Ok? {
      assert roots[..i] + ([roots[i]] + tail.value) == roots[..i + 1] + tail.value;
    }
  }

  class LocalFilesystem {
    var roots: seq<LocalItem>
    /** The parent link of each item, by id. */
    var parentOf: map<ItemId, ItemId>

    constructor ()
      ensures roots == [] && parentOf == map[]
    {
      roots, parentOf := [], map[];
    }

    /** Lines 229-231. */
    method AddToRoot(newItem: LocalItem)
      modifies this
      ensures roots == old(roots) + [newItem] && parentOf == old(parentOf)
    {
      roots := roots + [newItem];
    }

    /** Lines 244-246. */
    function FindFromPath(path: seq<string>): (r: Result<Option<LocalItem>, LookupError>)
      reads this
      ensures path == [] ==> r == Err(EmptyPath)
      ensures (forall i :: 0 <= i < |path| ==> path[i] == ".") && path != [] ==> r == Err(InvalidPath)
      ensures r.Ok? && r.value.Some? ==> path != [] && r.value.value.name == Some(path[|path| - 1])
    {
      LocalFind(path, roots)
    }

    /** The root-list part of `remove_item` for an item without parent (lines 193-200). */
    method RemoveRoot(itemName: Option<string>) returns (r: Result<(), LookupError>)
      modifies this
      ensures RemoveFirstNamed(old(roots), itemName).Ok? <==> r.Ok?
      ensures r.Ok? ==> roots == RemoveFirstNamed(old(roots), itemName).value
      ensures r.Err? ==> roots == old(roots)
      ensures parentOf == old(parentOf)
    {
      var i := 0;
      assert roots[i..] == roots && roots[..i] == [];
      var whole := RemoveFirstNamed(roots, itemName);
      if whole.Ok? {
        assert roots[..i] + whole.value == whole.value;
      }
      while i < |roots|
        invariant 0 <= i <= |roots| && roots == old(roots) && parentOf == old(parentOf)
        invariant RemoveFirstNamed(roots, itemName) == PrefixThen(roots[..i], RemoveFirstNamed(roots[i..], itemName))
      {
        RemoveScanStep(roots, i, itemName);
        if roots[i].name.None? || itemName.None? {
          return Err(NameError);
        }
        if roots[i].name == itemName {
          roots := roots[..i] + roots[i + 1..];
          return Ok(());
        }
        i := i + 1;
      }
      assert roots[i..] == [];
      assert roots[..i] == roots;
      return Ok(());
    }

    /** `fix_parents_for`: link each child to `parent`, then fix the child's subtree. */
    method FixParentsFor(parent: LocalItem)
      modifies this
      ensures parentOf == FixChildren(parent.id, parent.children, old(parentOf))
      ensures roots == old(roots)
      decreases parent
    {
      var items := parent.children;
      for i := 0 to |items|
        invariant roots == old(roots)
        invariant parentOf == FixChildren(parent.id, items[..i], old(parentOf))
      {
        assert items[..i + 1][..i] == items[..i];
        parentOf := parentOf[items[i].id := parent.id];
        FixParentsFor(items[i]);
      }
      assert items[..|items|] == items;
    }

    /** Lines 210-214. */
    method PostDeserialize()
      modifies this
      ensures parentOf == FixRoots(roots, old(parentOf))
      ensures roots == old(roots)
    {
      for i := 0 to |roots|
        invariant roots == old(roots)
        invariant parentOf == FixRoots(roots[..i], old(parentOf))
      {
        assert roots[..i + 1][..i] == roots[..i];
        FixParentsFor(roots[i]);
      }
      assert roots[..|roots|] == roots;
    }
  }
}
