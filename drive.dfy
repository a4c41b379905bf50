/** What the importer sees of Google Drive: items as the files-list endpoint
    returns them, a folder hierarchy whose listings are snapshots taken at
    listing time, and pages of a paginated listing. */
module Drive {
  import opened Wrappers

  /** The MIME type Drive gives to folders. */
  const FolderMimeType: string := "application/vnd.google-apps.folder"

  /** The fields requested by the listing (`id, name, mimeType, size,
      createdTime, modifiedTime`); Drive omits `size` for folders and
      native documents. */
  datatype DriveItem = DriveItem(
    id: string,
    name: string,
    mimeType: string,
    size: Option<string>,
    createdTime: string,
    modifiedTime: string)

  predicate IsFolder(item: DriveItem) {
    item.mimeType == FolderMimeType
  }

  /** A non-success HTTP status from the Drive API, with the response body. */
  datatype DriveError = DriveError(status: int, statusText: string, body: string)

  /** The complete (unpaginated) children of a folder, or the error the
      listing request failed with. */
  datatype Listing = Listed(children: seq<Tree>) | Unlisted(error: DriveError)

  /** A node of the remote hierarchy together with what listing it returns.
      The listing of a non-folder is never requested. */
  datatype Tree = Tree(item: DriveItem, listing: Listing)

  /** One response of the files-list endpoint. */
  datatype Page = Page(files: seq<DriveItem>, nextPageToken: Option<string>)

  /** The items of the children, in listing order: what a listing returns. */
  function Items(kids: seq<Tree>): (r: seq<DriveItem>)
    ensures |r| == |kids| && forall i :: 0 <= i < |kids| ==> r[i] == kids[i].item
  {
    if kids == [] then [] else [kids[0].item] + Items(kids[1..])
  }

  /** `items.filter((item) => item.mimeType === FOLDER)`: the root's and
      every department's listing is filtered so before their folders are
      imported. Exactly the folder items are kept. */
  function FolderItems(items: seq<DriveItem>): (r: seq<DriveItem>)
    ensures |r| <= |items|
    ensures forall x :: x in r <==> x in items && IsFolder(x)
  {
    if items == [] then []
    else (if IsFolder(items[0]) then [items[0]] else []) + FolderItems(items[1..])
  }

  /** The same filter on the children of the tree: exactly the children
      that are folders are kept. */
  function FolderChildren(kids: seq<Tree>): (r: seq<Tree>)
    ensures |r| <= |kids|
    ensures forall t :: t in r <==> t in kids && IsFolder(t.item)
  {
    if kids == [] then []
    else (if IsFolder(kids[0].item) then [kids[0]] else []) + FolderChildren(kids[1..])
  }

  /** Filtering the children and taking their items is filtering the items:
      the folders kept are those of the listing, in listing order. */
  lemma {:induction false} ItemsOfFolderChildren(kids: seq<Tree>)
    ensures Items(FolderChildren(kids)) == FolderItems(Items(kids))
  {
    if kids != [] {
      var rest := kids[1..];
      ItemsOfFolderChildren(rest);
      var items := Items(kids);
      assert items[0] == kids[0].item && items[1..] == Items(rest);
      var later := FolderChildren(rest);
      if IsFolder(kids[0].item) {
        var here := [kids[0]] + later;
        assert FolderChildren(kids) == here;
        assert here[0] == kids[0] && here[1..] == later;
      } else {
        assert FolderChildren(kids) == later;
      }
    }
  }

  /** The filter keeps listing order: it distributes over concatenation. */
  lemma {:induction false} FolderItemsAppend(a: seq<DriveItem>, b: seq<DriveItem>)
    ensures FolderItems(a + b) == FolderItems(a) + FolderItems(b)
    decreases |a|
  {
    if a == [] {
      assert a + b == b;
    } else {
      var ab := a + b;
      assert ab[0] == a[0] && ab[1..] == a[1..] + b;
      FolderItemsAppend(a[1..], b);
      var h := if IsFolder(a[0]) then [a[0]] else [];
      assert FolderItems(ab) == h + (FolderItems(a[1..]) + FolderItems(b));
      assert FolderItems(a) == h + FolderItems(a[1..]);
    }
  }
}
