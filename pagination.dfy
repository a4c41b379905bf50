/** `listFolderChildren`: the complete listing of a folder, fetched page by
    page. Each request passes the token of the previous page (none for the
    first), and the loop goes on while the response carries a non-empty
    `nextPageToken`; the first failed request aborts the listing.

    The Drive endpoint is a parameter: a function from the folder id and
    the page token to the response. Drive may keep returning tokens, so the
    listing is only defined when the last page comes within a known number
    of requests, `fuel`. */
module Pagination {
  import opened Wrappers
  import opened Drive

  /** What the files-list endpoint answers for a folder id and a page token. */
  type PageSource = (string, Option<string>) -> Result<Page, DriveError>

  /** `while (pageToken)`: a token is followed only when present and non-empty. */
  predicate HasNext(token: Option<string>) {
    token.Some? && token.value != ""
  }

  /** The listing obtained by requesting pages from `token` on, using at most
      `fuel` requests: None when the pages do not end within `fuel`. */
  function FetchPages(src: PageSource, folderId: string, token: Option<string>, fuel: nat): Option<Result<seq<DriveItem>, DriveError>>
    decreases fuel
  {
    if fuel == 0 then None
    else match src(folderId, token)
      case Failure(e) => Some(Failure(e))
      case Success(page) =>
        if !HasNext(page.nextPageToken) then Some(Success(page.files))
        else match FetchPages(src, folderId, page.nextPageToken, fuel - 1)
          case None => None
          case Some(rest) => Some(Prepend(page.files, rest))
  }

  /** More requests than needed change nothing: the listing does not depend
      on the bound once the pages end within it. */
  lemma {:induction false} FetchPagesFuel(src: PageSource, folderId: string, token: Option<string>, fuel: nat, more: nat)
    requires FetchPages(src, folderId, token, fuel).Some? && fuel <= more
    ensures FetchPages(src, folderId, token, more) == FetchPages(src, folderId, token, fuel)
    decreases fuel
  {
    match src(folderId, token)
    case Failure(_) =>
    case Success(page) =>
      if HasNext(page.nextPageToken) {
        FetchPagesFuel(src, folderId, page.nextPageToken, fuel - 1, more - 1);
      }
  }

  /** `listFolderChildren(folderId, accessToken)`, for a folder whose pages
      end within `fuel` requests. */
  method ListFolderChildren(src: PageSource, folderId: string, ghost fuel: nat) returns (r: Result<seq<DriveItem>, DriveError>)
    requires FetchPages(src, folderId, None, fuel).Some?
    ensures Some(r) == FetchPages(src, folderId, None, fuel)
  {
    var files: seq<DriveItem> := [];
    var pageToken: Option<string> := None;
    ghost var left := fuel;
    ghost var whole := FetchPages(src, folderId, None, fuel);
    assert whole.value.Success? ==> files + whole.value.value == whole.value.value;
    while true
      invariant FetchPages(src, folderId, pageToken, left).Some?
      invariant FetchPages(src, folderId, None, fuel) == Some(Prepend(files, FetchPages(src, folderId, pageToken, left).value))
      decreases left
    {
      var data := src(folderId, pageToken);
      if data.Failure? {
        return Failure(data.error);
      }
      if HasNext(data.value.nextPageToken) {
        PrependAssoc(files, data.value.files, FetchPages(src, folderId, data.value.nextPageToken, left - 1).value);
      }
      files := files + data.value.files;
      pageToken := data.value.nextPageToken;
      left := left - 1;
      if !HasNext(pageToken) {
        return Success(files);
      }
    }
  }

  /** The endpoint lists the folder `t` as the tree says, each listing within
      `fuel` requests: the listing's error when it fails, otherwise the items
      of its children in order, and likewise for every folder among them. */
  ghost predicate ListsAs(src: PageSource, t: Tree, fuel: nat)
    decreases t
  {
    match t.listing
    case Unlisted(e) => FetchPages(src, t.item.id, None, fuel) == Some(Failure(e))
    case Listed(kids) =>
      && FetchPages(src, t.item.id, None, fuel) == Some(Success(Items(kids)))
      && forall c :: c in kids && IsFolder(c.item) ==> ListsAs(src, c, fuel)
  }

  /** The `i`th folder child of a folder listed as `t` is itself listed as
      its subtree, and it is the `i`th folder item of the listing. */
  lemma FolderSubtreeLists(src: PageSource, t: Tree, fuel: nat, i: nat)
    requires ListsAs(src, t, fuel) && t.listing.Listed? && i < |FolderChildren(t.listing.children)|
    ensures |FolderItems(Items(t.listing.children))| == |FolderChildren(t.listing.children)|
    ensures var sub := FolderChildren(t.listing.children)[i];
            && sub in t.listing.children
            && ListsAs(src, sub, fuel)
            && sub.item == FolderItems(Items(t.listing.children))[i]
  {
    var kids := t.listing.children;
    var sub := FolderChildren(kids)[i];
    assert sub in FolderChildren(kids);
    ItemsOfFolderChildren(kids);
    assert Items(FolderChildren(kids))[i] == sub.item;
  }

  /** `tokens[i]` is the token sent with request `i`, answered by `pages[i]`:
      the first request has no token, each later one the previous page's
      next token, every page but the last has a next token and the last has
      none. */
  ghost predicate PageTrace(src: PageSource, folderId: string, tokens: seq<Option<string>>, pages: seq<Page>) {
    && |tokens| == |pages| > 0
    && tokens[0] == None
    && (forall i :: 0 <= i < |pages| ==> src(folderId, tokens[i]) == Success(pages[i]))
    && (forall i :: 0 <= i < |pages| - 1 ==> HasNext(pages[i].nextPageToken) && tokens[i + 1] == pages[i].nextPageToken)
    && !HasNext(pages[|pages| - 1].nextPageToken)
  }

  function AllFiles(pages: seq<Page>): seq<DriveItem> {
    if pages == [] then [] else pages[0].files + AllFiles(pages[1..])
  }

  /** The listing of a folder whose pages follow a trace is the files of
      all its pages, in page order. */
  lemma ListingOfTrace(src: PageSource, folderId: string, tokens: seq<Option<string>>, pages: seq<Page>)
    requires PageTrace(src, folderId, tokens, pages)
    ensures FetchPages(src, folderId, None, |pages|) == Some(Success(AllFiles(pages)))
  {
    ListingOfTraceFrom(src, folderId, tokens, pages, 0);
  }

  lemma {:induction false} ListingOfTraceFrom(src: PageSource, folderId: string, tokens: seq<Option<string>>, pages: seq<Page>, i: nat)
    requires PageTrace(src, folderId, tokens, pages) && i < |pages|
    ensures FetchPages(src, folderId, tokens[i], |pages| - i) == Some(Success(AllFiles(pages[i..])))
    decreases |pages| - i
  {
    assert pages[i..][0] == pages[i];
    if i + 1 < |pages| {
      ListingOfTraceFrom(src, folderId, tokens, pages, i + 1);
      assert pages[i..][1..] == pages[i + 1..];
    } else {
      assert pages[i..][1..] == [];
      assert pages[i].files + [] == pages[i].files;
    }
  }

  /** A request that fails after a run of pages with next tokens makes the
      whole listing fail with its error, whatever was fetched before. */
  lemma {:induction false} ListingFailsOnError(src: PageSource, folderId: string, tokens: seq<Option<string>>, pages: seq<Page>, e: DriveError)
    requires |tokens| == |pages| + 1 && tokens[0] == None
    requires forall i :: 0 <= i < |pages| ==> src(folderId, tokens[i]) == Success(pages[i])
    requires forall i :: 0 <= i < |pages| ==> HasNext(pages[i].nextPageToken) && tokens[i + 1] == pages[i].nextPageToken
    requires src(folderId, tokens[|pages|]) == Failure(e)
    ensures FetchPages(src, folderId, None, |pages| + 1) == Some(Failure(e))
  {
    FailsFrom(src, folderId, tokens, pages, e, 0);
  }

  lemma {:induction false} FailsFrom(src: PageSource, folderId: string, tokens: seq<Option<string>>, pages: seq<Page>, e: DriveError, i: nat)
    requires |tokens| == |pages| + 1 && i <= |pages|
    requires forall i :: 0 <= i < |pages| ==> src(folderId, tokens[i]) == Success(pages[i])
    requires forall i :: 0 <= i < |pages| ==> HasNext(pages[i].nextPageToken) && tokens[i + 1] == pages[i].nextPageToken
    requires src(folderId, tokens[|pages|]) == Failure(e)
    ensures FetchPages(src, folderId, tokens[i], |pages| + 1 - i) == Some(Failure(e))
    decreases |pages| - i
  {
    if i < |pages| {
      FailsFrom(src, folderId, tokens, pages, e, i + 1);
    }
  }
}
