/** `collectFilesRecursively`: every non-folder item below a folder, each
    tagged with the names of the folders between the starting folder and the
    item. The direct files of a folder come first, in listing order, then the
    files of each sub-folder in turn; the first listing that fails aborts the
    whole walk. */
module TreeWalk {
  import opened Wrappers
  import opened Drive
  import opened Pagination

  /** A file together with its `pathSegments`. */
  datatype TaggedFile = TaggedFile(item: DriveItem, pathSegments: seq<string>)

  /** The non-folder items of a listing, tagged with `ancestors`: exactly
      those, each once per occurrence, in listing order. */
  function DirectFiles(items: seq<DriveItem>, ancestors: seq<string>): (r: seq<TaggedFile>)
    ensures |r| <= |items|
    ensures forall f :: f in r <==> f.item in items && !IsFolder(f.item) && f.pathSegments == ancestors
  {
    if items == [] then []
    else
      var rest := DirectFiles(items[1..], ancestors);
      if IsFolder(items[0]) then rest else [TaggedFile(items[0], ancestors)] + rest
  }

  /** `[...ancestors, folder.name]`: the path of the items inside `folder`. */
  function ChildPath(ancestors: seq<string>, folder: DriveItem): seq<string> {
    ancestors + [folder.name]
  }

  /** The walk started at `t` with `ancestors` as the path so far. */
  function CollectFiles(t: Tree, ancestors: seq<string>): Result<seq<TaggedFile>, DriveError>
    decreases t
  {
    match t.listing
    case Unlisted(e) => Failure(e)
    case Listed(kids) => Prepend(DirectFiles(Items(kids), ancestors), CollectFolders(kids, ancestors))
  }

  /** The walks of the folders among `kids`, in order, stopping at the first
      that fails. */
  function CollectFolders(kids: seq<Tree>, ancestors: seq<string>): Result<seq<TaggedFile>, DriveError>
    decreases kids
  {
    if kids == [] then Success([])
    else if !IsFolder(kids[0].item) then CollectFolders(kids[1..], ancestors)
    else match CollectFiles(kids[0], ChildPath(ancestors, kids[0].item))
      case Failure(e) => Failure(e)
      case Success(files) => Prepend(files, CollectFolders(kids[1..], ancestors))
  }

  /** Only the folders among the children are walked. */
  lemma {:induction false} CollectFoldersOfFolders(kids: seq<Tree>, ancestors: seq<string>)
    ensures CollectFolders(FolderChildren(kids), ancestors) == CollectFolders(kids, ancestors)
  {
    if kids != [] {
      var rest := kids[1..];
      CollectFoldersOfFolders(rest, ancestors);
      var folders := FolderChildren(kids);
      if IsFolder(kids[0].item) {
        assert folders == [kids[0]] + FolderChildren(rest);
        assert folders[0] == kids[0] && folders[1..] == FolderChildren(rest);
      } else {
        assert folders == FolderChildren(rest);
      }
    }
  }

  /** `collectFilesRecursively(folderId, accessToken, ancestors)`: the two
      loops of the source, the second recursive, with every listing fetched
      through `ListFolderChildren`. `t` is the folder's tree as the endpoint
      lists it; the result is the walk of that tree. */
  method CollectFilesRecursively(src: PageSource, folderId: string, ancestors: seq<string>, ghost t: Tree, ghost fuel: nat)
    returns (r: Result<seq<TaggedFile>, DriveError>)
    requires t.item.id == folderId && ListsAs(src, t, fuel)
    ensures r == CollectFiles(t, ancestors)
    decreases t
  {
    var children := ListFolderChildren(src, folderId, fuel);
    if children.Failure? {
      return Failure(children.error);
    }
    ghost var kids := t.listing.children;
    var folders, files := SplitChildren(children.value, ancestors);
    ghost var subtrees := FolderChildren(kids);
    assert |folders| == |subtrees| by { ItemsOfFolderChildren(kids); }
    CollectFoldersOfFolders(kids, ancestors);
    var j := 0;
    while j < |folders|
      invariant 0 <= j <= |folders| == |subtrees|
      invariant CollectFiles(t, ancestors) == Prepend(files, CollectFolders(subtrees[j..], ancestors))
    {
      var folder := folders[j];
      ghost var sub := subtrees[j];
      FolderSubtreeLists(src, t, fuel, j);
      assert subtrees[j..][0] == sub && subtrees[j..][1..] == subtrees[j + 1..];
      var nested := CollectFilesRecursively(src, folder.id, ChildPath(ancestors, folder), sub, fuel);
      if nested.Failure? {
        return Failure(nested.error);
      }
      PrependAssoc(files, nested.value, CollectFolders(subtrees[j + 1..], ancestors));
      files := files + nested.value;
      j := j + 1;
    }
    assert subtrees[j..] == [] && files + [] == files;
    return Success(files);
  }

  /** The first loop of `collectFilesRecursively`: the children split into
      the folders and the files tagged with `ancestors`, both in listing order. */
  method SplitChildren(children: seq<DriveItem>, ancestors: seq<string>) returns (folders: seq<DriveItem>, files: seq<TaggedFile>)
    ensures folders == FolderItems(children)
    ensures files == DirectFiles(children, ancestors)
  {
    folders := [];
    files := [];
    var i := 0;
    while i < |children|
      invariant 0 <= i <= |children|
      invariant folders == FolderItems(children[..i])
      invariant files == DirectFiles(children[..i], ancestors)
    {
      var item := children[i];
      SplitStep(children, i, ancestors);
      if IsFolder(item) {
        folders := folders + [item];
      } else {
        files := files + [TaggedFile(item, ancestors)];
      }
      i := i + 1;
    }
    assert children[..i] == children;
  }

  lemma SplitStep(children: seq<DriveItem>, i: nat, ancestors: seq<string>)
    requires i < |children|
    ensures FolderItems(children[..i + 1])
            == FolderItems(children[..i]) + (if IsFolder(children[i]) then [children[i]] else [])
    ensures DirectFiles(children[..i + 1], ancestors)
            == DirectFiles(children[..i], ancestors) + (if IsFolder(children[i]) then [] else [TaggedFile(children[i], ancestors)])
  {
    var item := children[i];
    assert children[..i + 1] == children[..i] + [item];
    FolderItemsAppend(children[..i], [item]);
    DirectFilesAppend(children[..i], [item], ancestors);
  }

  lemma {:induction false} DirectFilesAppend(a: seq<DriveItem>, b: seq<DriveItem>, ancestors: seq<string>)
    ensures DirectFiles(a + b, ancestors) == DirectFiles(a, ancestors) + DirectFiles(b, ancestors)
    decreases |a|
  {
    if a == [] {
      assert a + b == b;
    } else {
      assert (a + b)[1..] == a[1..] + b;
      DirectFilesAppend(a[1..], b, ancestors);
    }
  }

  // ---------------------------------------------------------------------------
  // What the walk returns

  /** Every folder reachable from `t` (itself included) lists successfully. */
  ghost predicate AllListed(t: Tree)
    decreases t
  {
    && t.listing.Listed?
    && forall i :: 0 <= i < |t.listing.children| && IsFolder(t.listing.children[i].item)
                   ==> AllListed(t.listing.children[i])
  }

  /** The walk succeeds exactly when every folder below the start lists. */
  lemma {:induction false} CollectFilesSucceedsIffAllListed(t: Tree, ancestors: seq<string>)
    ensures CollectFiles(t, ancestors).Success? <==> AllListed(t)
    decreases t
  {
    if t.listing.Listed? {
      CollectFoldersSucceedIffAllListed(t.listing.children, ancestors);
    }
  }

  lemma {:induction false} CollectFoldersSucceedIffAllListed(kids: seq<Tree>, ancestors: seq<string>)
    ensures CollectFolders(kids, ancestors).Success?
            <==> forall i :: 0 <= i < |kids| && IsFolder(kids[i].item) ==> AllListed(kids[i])
    decreases kids
  {
    if kids != [] {
      if IsFolder(kids[0].item) {
        CollectFilesSucceedsIffAllListed(kids[0], ChildPath(ancestors, kids[0].item));
      }
      CollectFoldersSucceedIffAllListed(kids[1..], ancestors);
      assert forall i :: 1 <= i < |kids| ==> kids[i] == kids[1..][i - 1];
    }
  }

  /** `f` is a file below `t`: a non-folder child tagged with `ancestors`,
      or a file below a child folder, whose name is appended to the path. */
  ghost predicate FileBelow(t: Tree, ancestors: seq<string>, f: TaggedFile)
    decreases t, 0
  {
    t.listing.Listed? && exists c :: c in t.listing.children && FileIn(c, ancestors, f)
  }

  /** `f` is the child `c` tagged with `ancestors`, or a file below it. */
  ghost predicate FileIn(c: Tree, ancestors: seq<string>, f: TaggedFile)
    decreases c, 1
  {
    if IsFolder(c.item) then FileBelow(c, ChildPath(ancestors, c.item), f)
    else f == TaggedFile(c.item, ancestors)
  }

  /** A successful walk returns exactly the files below the start folder,
      each with the folder names on its way there. */
  lemma {:induction false} CollectFilesMembers(t: Tree, ancestors: seq<string>)
    requires CollectFiles(t, ancestors).Success?
    ensures forall f :: f in CollectFiles(t, ancestors).value <==> FileBelow(t, ancestors, f)
    decreases t, 0
  {
    CollectFoldersMembers(t.listing.children, ancestors);
  }

  lemma {:induction false} CollectFoldersMembers(kids: seq<Tree>, ancestors: seq<string>)
    requires CollectFolders(kids, ancestors).Success?
    ensures forall f :: f in DirectFiles(Items(kids), ancestors) + CollectFolders(kids, ancestors).value
                        <==> exists c :: c in kids && FileIn(c, ancestors, f)
    decreases kids
  {
    if kids != [] {
      var rest := kids[1..];
      var c0 := kids[0];
      assert forall c :: c in kids <==> c == c0 || c in rest;
      CollectFoldersMembers(rest, ancestors);
      var here := DirectFiles(Items(kids), ancestors) + CollectFolders(kids, ancestors).value;
      var there := DirectFiles(Items(rest), ancestors) + CollectFolders(rest, ancestors).value;
      assert Items(kids) == [c0.item] + Items(rest);
      if IsFolder(c0.item) {
        var below := CollectFiles(c0, ChildPath(ancestors, c0.item)).value;
        CollectFilesMembers(c0, ChildPath(ancestors, c0.item));
        assert CollectFolders(kids, ancestors).value == below + CollectFolders(rest, ancestors).value;
        assert forall f :: f in here <==> f in below || f in there;
      } else {
        assert DirectFiles(Items(kids), ancestors) == [TaggedFile(c0.item, ancestors)] + DirectFiles(Items(rest), ancestors);
        assert CollectFolders(kids, ancestors) == CollectFolders(rest, ancestors);
        assert forall f :: f in here <==> f == TaggedFile(c0.item, ancestors) || f in there;
      }
      forall f ensures f in here <==> exists c :: c in kids && FileIn(c, ancestors, f) {
        if f in here {
          if FileIn(c0, ancestors, f) {
            assert c0 in kids;
          } else {
            assert f in there;
            var c :| c in rest && FileIn(c, ancestors, f);
            assert c in kids;
          }
        } else {
          assert !FileIn(c0, ancestors, f);
          forall c | c in kids ensures !FileIn(c, ancestors, f) {
            if c != c0 {
              assert c in rest;
            }
          }
        }
      }
    }
  }

  /** Every file returned is a non-folder whose path starts with `ancestors`. */
  lemma {:induction false} CollectFilesShape(t: Tree, ancestors: seq<string>)
    requires CollectFiles(t, ancestors).Success?
    ensures forall f :: f in CollectFiles(t, ancestors).value ==>
              !IsFolder(f.item) && |ancestors| <= |f.pathSegments| && f.pathSegments[..|ancestors|] == ancestors
  {
    CollectFilesMembers(t, ancestors);
    forall f | f in CollectFiles(t, ancestors).value
      ensures !IsFolder(f.item) && |ancestors| <= |f.pathSegments| && f.pathSegments[..|ancestors|] == ancestors
    {
      FileBelowShape(t, ancestors, f);
    }
  }

  lemma {:induction false} FileBelowShape(t: Tree, ancestors: seq<string>, f: TaggedFile)
    requires FileBelow(t, ancestors, f)
    ensures !IsFolder(f.item) && |ancestors| <= |f.pathSegments| && f.pathSegments[..|ancestors|] == ancestors
    decreases t
  {
    var c :| c in t.listing.children && FileIn(c, ancestors, f);
    if IsFolder(c.item) {
      var longer := ChildPath(ancestors, c.item);
      FileBelowShape(c, longer, f);
      assert f.pathSegments[..|ancestors|] == f.pathSegments[..|longer|][..|ancestors|];
    }
  }

  /** The walk lists the folder's own files first, in listing order. */
  lemma DirectFilesFirst(t: Tree, ancestors: seq<string>)
    requires CollectFiles(t, ancestors).Success?
    ensures var direct := DirectFiles(Items(t.listing.children), ancestors);
            |direct| <= |CollectFiles(t, ancestors).value|
            && CollectFiles(t, ancestors).value[..|direct|] == direct
  {
  }
}
