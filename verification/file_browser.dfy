/**
 The repository file browser of JS/torres-github-api.js: the contents URL, the
 breadcrumb, the ordering of a directory listing, the file icons and the
 navigation state `fileBrowserState` together with the modal's open flag and
 the panels it drives.
 */
module FileBrowser {
  import opened Strings
  import opened JsValues
  import opened Sorting
  import RepoRanking

  // ---------------------------------------------------------------- paths

  /** `${repoUrl}/contents`, followed by `/${path}` only for a non-empty path. */
  function ContentsUrl(repoUrl: string, path: string): (url: string)
    ensures path == "" ==> url == repoUrl + "/contents"
    ensures path != "" ==> url == repoUrl + "/contents/" + path
  {
    var base := repoUrl + "/contents";
    if path != "" then base + "/" + path else base
  }

  /** Different paths of one repository request different URLs. */
  lemma ContentsUrlDistinct(repoUrl: string, p1: string, p2: string)
    requires p1 != p2
    ensures ContentsUrl(repoUrl, p1) != ContentsUrl(repoUrl, p2)
  {
    var base := repoUrl + "/contents";
    if p1 != "" && p2 != "" {
      assert ContentsUrl(repoUrl, p1)[|base| + 1..] == p1;
      assert ContentsUrl(repoUrl, p2)[|base| + 1..] == p2;
    }
  }

  /** The path a directory entry opens: its bare name at the root, `current/name` below it. */
  function ChildPath(current: string, name: string): (p: string)
    ensures current == "" ==> p == name
    ensures current != "" ==> p == current + "/" + name
  {
    if current != "" then current + "/" + name else name
  }

  /** A child path splits into the parent's segments plus the entry's name. */
  lemma ChildPathSegments(current: string, name: string)
    requires current != ""
    requires '/' !in name
    ensures Split(ChildPath(current, name), '/') == Split(current, '/') + [name]
  {
    JoinSplit(current, '/');
    var parts := Split(current, '/');
    JoinSnoc(parts, name, '/');
    SplitJoin(parts + [name], '/');
  }

  lemma {:induction false} JoinSnoc(parts: seq<string>, last: string, sep: char)
    requires |parts| >= 1
    ensures Join(parts + [last], sep) == Join(parts, sep) + [sep] + last
  {
    if |parts| == 1 {
      assert Join([last], sep) == last;
      assert (parts + [last])[1..] == [last];
    } else {
      JoinSnoc(parts[1..], last, sep);
      assert (parts + [last])[1..] == parts[1..] + [last];
    }
  }

  // ---------------------------------------------------------------- breadcrumb

  /**
   One breadcrumb button: its caption and the `loadDirectoryContents(repoUrl,
   target)` it calls, with the repository URL written in when it was drawn.
   */
  datatype Crumb = Crumb(caption: string, repoUrl: string, target: string)

  const RootCaption := "\U{1F5BF} Root"

  /** One step of the running path: `acc + (acc ? '/' : '') + part`. */
  function Extend(acc: string, part: string): string {
    acc + (if acc != "" then "/" else "") + part
  }

  /** The running path once every part has been added. */
  function Walk(parts: seq<string>, acc: string): string
    decreases |parts|
  {
    if |parts| == 0 then acc else Walk(parts[1..], Extend(acc, parts[0]))
  }

  /** The loop of `updateBreadcrumb`, with `acc` the running `currentPath`. */
  function CrumbsFrom(repoUrl: string, parts: seq<string>, acc: string): (crumbs: seq<Crumb>)
    ensures |crumbs| == |parts|
    ensures forall i :: 0 <= i < |parts| ==> crumbs[i].caption == parts[i] && crumbs[i].repoUrl == repoUrl
  {
    if |parts| == 0 then []
    else
      var next := Extend(acc, parts[0]);
      [Crumb(parts[0], repoUrl, next)] + CrumbsFrom(repoUrl, parts[1..], next)
  }

  /**
   `updateBreadcrumb`: the Root button, then one button per `/`-segment of a
   non-empty path, every one of them calling into `repoUrl`.
   */
  function Breadcrumbs(repoUrl: string, path: string): (crumbs: seq<Crumb>)
    ensures |crumbs| >= 1 && crumbs[0] == Crumb(RootCaption, repoUrl, "")
    ensures path == "" ==> crumbs == [Crumb(RootCaption, repoUrl, "")]
    ensures path != "" ==> |crumbs| == 1 + |Split(path, '/')|
    ensures path != "" ==> forall i :: 0 <= i < |Split(path, '/')| ==> crumbs[i + 1].caption == Split(path, '/')[i]
    ensures forall i :: 0 <= i < |crumbs| ==> crumbs[i].repoUrl == repoUrl
  {
    [Crumb(RootCaption, repoUrl, "")] + (if path != "" then CrumbsFrom(repoUrl, Split(path, '/'), "") else [])
  }

  /** Crumb `i` loads the running path after the first `i + 1` parts. */
  lemma {:induction false} CrumbTargetIsWalk(repoUrl: string, parts: seq<string>, acc: string, i: nat)
    requires i < |parts|
    ensures CrumbsFrom(repoUrl, parts, acc)[i].target == Walk(parts[..i + 1], acc)
    decreases i
  {
    var next := Extend(acc, parts[0]);
    assert CrumbsFrom(repoUrl, parts, acc) == [Crumb(parts[0], repoUrl, next)] + CrumbsFrom(repoUrl, parts[1..], next);
    var prefix := parts[..i + 1];
    assert prefix[0] == parts[0] && prefix[1..] == parts[1..][..i];
    assert Walk(prefix, acc) == Walk(parts[1..][..i], next);
    if i > 0 {
      CrumbTargetIsWalk(repoUrl, parts[1..], next, i - 1);
    }
  }

  /** The running path is the parts joined by `/`, after `acc` and a slash when `acc` is not empty. */
  lemma {:induction false} WalkJoin(parts: seq<string>, acc: string)
    requires |parts| >= 1
    requires acc != "" || parts[0] != ""
    ensures acc == "" ==> Walk(parts, acc) == Join(parts, '/')
    ensures acc != "" ==> Walk(parts, acc) == acc + "/" + Join(parts, '/')
    decreases |parts|
  {
    var next := Extend(acc, parts[0]);
    assert next == (if acc != "" then acc + "/" + parts[0] else parts[0]);
    assert Walk(parts, acc) == Walk(parts[1..], next);
    if |parts| == 1 {
      assert Join(parts, '/') == parts[0];
    } else {
      WalkJoin(parts[1..], next);
      assert Join(parts, '/') == parts[0] + "/" + Join(parts[1..], '/');
    }
  }

  /** Adding a part at the end adds one crumb, loading the running path extended by it. */
  lemma {:induction false} CrumbsFromSnoc(repoUrl: string, parts: seq<string>, acc: string, x: string)
    ensures CrumbsFrom(repoUrl, parts + [x], acc)
         == CrumbsFrom(repoUrl, parts, acc) + [Crumb(x, repoUrl, Extend(Walk(parts, acc), x))]
    decreases |parts|
  {
    if |parts| == 0 {
      assert parts + [x] == [x];
    } else {
      var next := Extend(acc, parts[0]);
      CrumbsFromSnoc(repoUrl, parts[1..], next, x);
      assert (parts + [x])[0] == parts[0];
      assert (parts + [x])[1..] == parts[1..] + [x];
    }
  }

  /** A path starts with `/` exactly when its first segment is empty. */
  lemma FirstSegmentEmpty(path: string)
    requires path != ""
    ensures Split(path, '/')[0] == "" <==> path[0] == '/'
  {
  }

  /** When the first part is not empty, crumb `i` loads the first `i + 1` parts joined by `/`. */
  lemma TargetOfCrumb(repoUrl: string, parts: seq<string>, i: nat)
    requires |parts| >= 1 && parts[0] != ""
    requires i < |parts|
    ensures CrumbsFrom(repoUrl, parts, "")[i].target == Join(parts[..i + 1], '/')
  {
    CrumbTargetIsWalk(repoUrl, parts, "", i);
    assert parts[..i + 1][0] == parts[0];
    WalkJoin(parts[..i + 1], "");
  }

  /**
   For a path not starting with `/`, crumb `i + 1` loads the first `i + 1`
   segments joined by `/`, and the last crumb loads the whole path.
   */
  lemma BreadcrumbTargets(repoUrl: string, path: string, i: nat)
    requires path != "" && path[0] != '/'
    requires i < |Split(path, '/')|
    ensures Breadcrumbs(repoUrl, path)[i + 1].target == Join(Split(path, '/')[..i + 1], '/')
    ensures Breadcrumbs(repoUrl, path)[|Breadcrumbs(repoUrl, path)| - 1].target == path
  {
    var parts := Split(path, '/');
    var crumbs := Breadcrumbs(repoUrl, path);
    assert crumbs == [Crumb(RootCaption, repoUrl, "")] + CrumbsFrom(repoUrl, parts, "");
    FirstSegmentEmpty(path);
    TargetOfCrumb(repoUrl, parts, i);
    assert crumbs[i + 1] == CrumbsFrom(repoUrl, parts, "")[i];
    TargetOfCrumb(repoUrl, parts, |parts| - 1);
    assert crumbs[|crumbs| - 1] == CrumbsFrom(repoUrl, parts, "")[|parts| - 1];
    JoinSplit(path, '/');
    assert parts[..|parts|] == parts;
  }

  /** Opening a folder adds exactly one crumb, which loads that folder. */
  lemma BreadcrumbsOfChild(repoUrl: string, current: string, name: string)
    requires current == "" || current[0] != '/'
    requires name != "" && '/' !in name
    ensures Breadcrumbs(repoUrl, ChildPath(current, name))
         == Breadcrumbs(repoUrl, current) + [Crumb(name, repoUrl, ChildPath(current, name))]
  {
    var child := ChildPath(current, name);
    if current == "" {
      SplitNoSeparator(name, '/');
      assert CrumbsFrom(repoUrl, [name], "") == [Crumb(name, repoUrl, Extend("", name))];
      assert Extend("", name) == name;
    } else {
      var parts := Split(current, '/');
      ChildPathSegments(current, name);
      FirstSegmentEmpty(current);
      assert Breadcrumbs(repoUrl, child) == [Crumb(RootCaption, repoUrl, "")] + CrumbsFrom(repoUrl, parts + [name], "");
      assert Breadcrumbs(repoUrl, current) == [Crumb(RootCaption, repoUrl, "")] + CrumbsFrom(repoUrl, parts, "");
      CrumbsFromSnoc(repoUrl, parts, "", name);
      WalkJoin(parts, "");
      JoinSplit(current, '/');
      assert Extend(Walk(parts, ""), name) == child;
    }
  }

  // ---------------------------------------------------------------- listing

  datatype EntryKind = Dir | File

  /** One element of a directory listing. */
  datatype Entry = Entry(name: string, kind: EntryKind, size: nat)

  /**
   The comparator of `displayFileContents`, `order` standing for
   `localeCompare`: a directory goes before a file, and entries of one kind
   compare by name.
   */
  function CompareEntries(order: (string, string) -> int, a: Entry, b: Entry): (c: int)
    ensures a.kind != b.kind ==> c != 0 && (c < 0 <==> a.kind == Dir)
    ensures a.kind == b.kind ==> c == order(a.name, b.name)
  {
    if a.kind != b.kind then (if a.kind == Dir then -1 else 1)
    else order(a.name, b.name)
  }

  function EntryOrder(order: (string, string) -> int): (Entry, Entry) -> int {
    (a: Entry, b: Entry) => CompareEntries(order, a, b)
  }

  lemma EntryOrderIsComparator(order: (string, string) -> int)
    requires IsComparator(order)
    ensures IsComparator(EntryOrder(order))
  {
    var cmp := EntryOrder(order);
    forall a, b, c | cmp(a, b) <= 0 && cmp(b, c) <= 0 ensures cmp(a, c) <= 0 {
      if a.kind == b.kind && b.kind == c.kind {
        assert order(a.name, b.name) <= 0 && order(b.name, c.name) <= 0;
        assert order(a.name, c.name) <= 0;
      }
    }
  }

  /**
   The sorted listing: the same entries, every directory before every file,
   entries of one kind in name order.
   */
  function SortEntries(entries: seq<Entry>, order: (string, string) -> int): (r: seq<Entry>)
    requires IsComparator(order)
    ensures multiset(r) == multiset(entries)
    ensures |r| == |entries|
    ensures forall i, j :: 0 <= i < j < |r| && r[j].kind == Dir ==> r[i].kind == Dir
    ensures forall i, j :: 0 <= i < j < |r| && r[i].kind == r[j].kind ==> order(r[i].name, r[j].name) <= 0
  {
    EntryOrderIsComparator(order);
    var r := Sort(entries, EntryOrder(order));
    assert forall i, j :: 0 <= i < j < |r| ==> CompareEntries(order, r[i], r[j]) <= 0;
    r
  }

  /** `getFileIcon`'s table, keyed by lower-cased extension. */
  const FileIconTable: map<string, string> := map[
    "js" := "\U{1F4C4}", "jsx" := "\U{269B}\U{FE0F}", "ts" := "\U{1F4D8}", "tsx" := "\U{269B}\U{FE0F}",
    "html" := "\U{1F310}", "css" := "\U{1F3A8}", "json" := "\U{1F4CB}", "md" := "\U{1F4DD}",
    "txt" := "\U{1F4C4}", "py" := "\U{1F40D}", "java" := "\U{2615}", "cs" := "\U{1F7E6}",
    "cpp" := "\U{2699}\U{FE0F}", "c" := "\U{2699}\U{FE0F}", "php" := "\U{1F418}", "sql" := "\U{1F5C4}\U{FE0F}",
    "xml" := "\U{1F4CB}", "yaml" := "\U{2699}\U{FE0F}", "yml" := "\U{2699}\U{FE0F}", "env" := "\U{1F510}",
    "gitignore" := "\U{1F6AB}", "package" := "\U{1F4E6}", "lock" := "\U{1F512}", "img" := "\U{1F5BC}\U{FE0F}",
    "png" := "\U{1F5BC}\U{FE0F}", "jpg" := "\U{1F5BC}\U{FE0F}", "jpeg" := "\U{1F5BC}\U{FE0F}", "gif" := "\U{1F5BC}\U{FE0F}",
    "svg" := "\U{1F3A8}", "pdf" := "\U{1F4C4}", "zip" := "\U{1F4E6}", "tar" := "\U{1F4E6}"
  ]

  const DefaultFileIcon := "\U{1F4C4}"

  /** `s.split(sep).pop()`. */
  function LastPiece(s: string, sep: char): string {
    var parts := Split(s, sep);
    parts[|parts| - 1]
  }

  /** `filename.split('.').pop().toLowerCase()`. */
  function Extension(filename: string): string {
    AsciiLower(LastPiece(filename, '.'))
  }

  /** The extension is the lower-cased text after the last dot. */
  lemma ExtensionAfterLastDot(stem: string, ext: string)
    requires '.' !in ext
    ensures Extension(stem + "." + ext) == AsciiLower(ext)
  {
    assert stem + "." + ext == stem + ['.'] + ext;
    LastPieceAfterSeparator(stem, ext, '.');
  }

  /** A name without a dot is its own (lower-cased) extension. */
  lemma ExtensionWithoutDot(filename: string)
    requires '.' !in filename
    ensures Extension(filename) == AsciiLower(filename)
  {
    SplitNoSeparator(filename, '.');
  }

  lemma {:induction false} LastPieceAfterSeparator(a: string, b: string, sep: char)
    requires sep !in b
    ensures |Split(a + [sep] + b, sep)| >= 2 && LastPiece(a + [sep] + b, sep) == b
    decreases |a|
  {
    var s := a + [sep] + b;
    if |a| == 0 {
      SplitAtFirst(a, b, sep);
      SplitNoSeparator(b, sep);
    } else {
      assert s[1..] == a[1..] + [sep] + b;
      LastPieceAfterSeparator(a[1..], b, sep);
    }
  }

  /** `getFileIcon`: the table's icon for the extension, or the page icon. */
  function FileIcon(filename: string): (icon: string)
    ensures Extension(filename) in FileIconTable ==> icon == FileIconTable[Extension(filename)]
    ensures Extension(filename) !in FileIconTable ==> icon == DefaultFileIcon
  {
    var ext := Extension(filename);
    if ext in FileIconTable then FileIconTable[ext] else DefaultFileIcon
  }

  /**
   One row of the listing panel; a folder row calls `loadDirectoryContents`
   with the repository URL written in when it was drawn.
   */
  datatype Item =
    | FolderItem(name: string, repoUrl: string, target: string)
    | FileItem(name: string, icon: string, size: nat)

  function ItemFor(e: Entry, repoUrl: string, currentPath: string): (item: Item)
    ensures item.FolderItem? <==> e.kind == Dir
    ensures item.name == e.name
  {
    if e.kind == Dir then FolderItem(e.name, repoUrl, ChildPath(currentPath, e.name))
    else FileItem(e.name, FileIcon(e.name), e.size)
  }

  function Items(sorted: seq<Entry>, repoUrl: string, currentPath: string): (items: seq<Item>)
    ensures |items| == |sorted|
    ensures forall i :: 0 <= i < |items| ==> items[i] == ItemFor(sorted[i], repoUrl, currentPath)
  {
    if |sorted| == 0 then [] else [ItemFor(sorted[0], repoUrl, currentPath)] + Items(sorted[1..], repoUrl, currentPath)
  }

  /** The parsed body of a contents request: an array of entries, or anything else (one file's descriptor). */
  datatype Payload = NotAnArray | EntryArray(entries: seq<Entry>)

  /** What the content panel shows. */
  datatype Content =
    | Blank
    | LoadingFiles
    | CannotBrowse
    | EmptyFolder
    | Files(items: seq<Item>)
    | LoadError(message: string)
  {
    /** A panel that answers a successful contents request. */
    predicate IsListing() {
      CannotBrowse? || EmptyFolder? || Files?
    }
  }

  /**
   `displayFileContents`: a non-array is not browsable, an empty array is an
   empty folder, otherwise one row per entry of the sorted listing, folders
   first, each kind in name order, every folder row opening the child path of
   `currentPath` in `repoUrl`.
   */
  function DisplayFileContents(payload: Payload, repoUrl: string, currentPath: string,
                               order: (string, string) -> int): (c: Content)
    requires IsComparator(order)
    ensures payload.NotAnArray? <==> c.CannotBrowse?
    ensures payload.EntryArray? && |payload.entries| == 0 <==> c.EmptyFolder?
    ensures c.Files? ==> c.items == Items(SortEntries(payload.entries, order), repoUrl, currentPath)
    ensures c.Files? ==> |c.items| == |payload.entries|
    ensures c.Files? ==> forall i, j :: 0 <= i < j < |c.items| && c.items[j].FolderItem? ==> c.items[i].FolderItem?
    ensures c.Files? ==> forall i, j :: 0 <= i < j < |c.items| && c.items[i].FolderItem? == c.items[j].FolderItem? ==>
              order(c.items[i].name, c.items[j].name) <= 0
    ensures c.Files? ==> forall i :: 0 <= i < |c.items| && c.items[i].FolderItem? ==>
              c.items[i].repoUrl == repoUrl && c.items[i].target == ChildPath(currentPath, c.items[i].name)
  {
    match payload
    case NotAnArray => CannotBrowse
    case EntryArray(entries) =>
      if |entries| == 0 then EmptyFolder
      else
        var sorted := SortEntries(entries, order);
        ItemsOfSorted(sorted, repoUrl, currentPath, order);
        Files(Items(sorted, repoUrl, currentPath))
  }

  /** The rows of a sorted listing inherit its order: folders first, each kind in name order. */
  lemma ItemsOfSorted(sorted: seq<Entry>, repoUrl: string, currentPath: string, order: (string, string) -> int)
    requires forall i, j :: 0 <= i < j < |sorted| && sorted[j].kind == Dir ==> sorted[i].kind == Dir
    requires forall i, j :: 0 <= i < j < |sorted| && sorted[i].kind == sorted[j].kind ==>
               order(sorted[i].name, sorted[j].name) <= 0
    ensures var items := Items(sorted, repoUrl, currentPath);
      && (forall i, j :: 0 <= i < j < |items| && items[j].FolderItem? ==> items[i].FolderItem?)
      && (forall i, j :: (0 <= i < j < |items| && items[i].FolderItem? == items[j].FolderItem?) ==>
            order(items[i].name, items[j].name) <= 0)
      && (forall i :: 0 <= i < |items| && items[i].FolderItem? ==>
            items[i].repoUrl == repoUrl && items[i].target == ChildPath(currentPath, items[i].name))
  {
    var items := Items(sorted, repoUrl, currentPath);
    forall i | 0 <= i < |items|
      ensures (items[i].FolderItem? <==> sorted[i].kind == Dir) && items[i].name == sorted[i].name
    {
      assert items[i] == ItemFor(sorted[i], repoUrl, currentPath);
    }
    forall i, j | 0 <= i < j < |items| && items[i].FolderItem? == items[j].FolderItem?
      ensures order(items[i].name, items[j].name) <= 0
    {
      assert sorted[i].kind == sorted[j].kind;
    }
  }

  // ---------------------------------------------------------------- navigation state

  /** The outcome of one contents request. */
  datatype Fetch = HttpError(status: nat) | NetworkError(message: string) | Received(payload: Payload)

  /** `fileBrowserState`, the modal's `active` class and what the modal shows. */
  datatype Browser = Browser(
    repoName: Option<string>,
    currentPath: string,
    repoUrl: Option<string>,
    active: bool,
    title: string,
    breadcrumb: seq<Crumb>,
    content: Content)

  const Initial := Browser(None, "", None, false, "", [], Blank)

  /** `openFileBrowser` up to its request for the repository root. */
  function Open(b: Browser, repo: RepoRanking.Repo): (b': Browser)
    ensures b'.repoName == Some(repo.name) && b'.repoUrl == Some(repo.url)
    ensures b'.currentPath == "" && b'.active
    ensures b'.title == repo.name + " - Files"
    ensures b'.content == LoadingFiles && b'.breadcrumb == b.breadcrumb
  {
    Browser(Some(repo.name), "", Some(repo.url), true, repo.name + " - Files", b.breadcrumb, LoadingFiles)
  }

  /** `closeFileBrowser` (close button, overlay): hides the modal and resets the path only. */
  function Close(b: Browser): (b': Browser)
    ensures !b'.active && b'.currentPath == ""
    ensures b'.repoName == b.repoName && b'.repoUrl == b.repoUrl
    ensures b'.title == b.title && b'.breadcrumb == b.breadcrumb && b'.content == b.content
  {
    b.(active := false, currentPath := "")
  }

  /** The `keydown` listener: Escape closes the modal only while it is open. */
  function KeyDown(b: Browser, key: string): (b': Browser)
    ensures key == "Escape" && b.active ==> b' == Close(b)
    ensures !(key == "Escape" && b.active) ==> b' == b
  {
    if key == "Escape" && b.active then Close(b) else b
  }

  /** The synchronous start of `loadDirectoryContents`: the panel says it is loading. */
  function StartLoad(b: Browser): (b': Browser)
    ensures b' == b.(content := LoadingFiles)
  {
    b.(content := LoadingFiles)
  }

  const LoadErrorPrefix := "Error loading files: "

  /**
   The rest of `loadDirectoryContents(repoUrl, path)` once the request for
   `ContentsUrl(repoUrl, path)` settles: only a successful response moves
   `currentPath` and the breadcrumb to `path`; a failure only shows its message.
   The new breadcrumb and folder rows call into the repository URL held in the
   state at that moment, not necessarily the one the request went to.
   */
  function CompleteLoad(b: Browser, path: string, fetch: Fetch, order: (string, string) -> int): (b': Browser)
    requires IsComparator(order)
    ensures fetch.Received? ==> b'.currentPath == path && b'.breadcrumb == Breadcrumbs(Render(b.repoUrl), path)
    ensures fetch.Received? ==> b'.content == DisplayFileContents(fetch.payload, Render(b.repoUrl), path, order)
    ensures !fetch.Received? ==> b'.currentPath == b.currentPath && b'.breadcrumb == b.breadcrumb
    ensures fetch.HttpError? ==>
              b'.content == LoadError(LoadErrorPrefix + "Failed to load directory: " + NatToDecimal(fetch.status))
    ensures fetch.NetworkError? ==> b'.content == LoadError(LoadErrorPrefix + fetch.message)
    ensures b'.repoName == b.repoName && b'.repoUrl == b.repoUrl && b'.active == b.active && b'.title == b.title
  {
    match fetch
    case HttpError(status) =>
      b.(content := LoadError(LoadErrorPrefix + "Failed to load directory: " + NatToDecimal(status)))
    case NetworkError(message) =>
      b.(content := LoadError(LoadErrorPrefix + message))
    case Received(payload) =>
      b.(currentPath := path, breadcrumb := Breadcrumbs(Render(b.repoUrl), path),
         content := DisplayFileContents(payload, Render(b.repoUrl), path, order))
  }

  /**
   While the modal is open and shows a listing, the state, the breadcrumb and
   the folder rows agree: the breadcrumb is that of `currentPath`, and every
   crumb and folder row calls into the repository of the state, a folder row
   opening a child of `currentPath`.
   */
  ghost predicate Coherent(b: Browser) {
    b.active && b.content.IsListing() ==>
      && b.breadcrumb == Breadcrumbs(Render(b.repoUrl), b.currentPath)
      && (b.content.Files? ==> forall i :: 0 <= i < |b.content.items| && b.content.items[i].FolderItem? ==>
            && b.content.items[i].repoUrl == Render(b.repoUrl)
            && b.content.items[i].target == ChildPath(b.currentPath, b.content.items[i].name))
  }

  /** Every transition keeps the modal coherent, stale responses included. */
  lemma CoherentPreserved(b: Browser, repo: RepoRanking.Repo, key: string, path: string,
                          fetch: Fetch, order: (string, string) -> int)
    requires IsComparator(order)
    requires Coherent(b)
    ensures Coherent(Open(b, repo))
    ensures Coherent(Close(b))
    ensures Coherent(KeyDown(b, key))
    ensures Coherent(StartLoad(b))
    ensures Coherent(CompleteLoad(b, path, fetch, order))
  {
  }

  lemma InitialCoherent()
    ensures Coherent(Initial)
  {
  }

  /**
   In a coherent listing, the Root crumb requests the root of the state's
   repository, and a successful answer brings the path back to the root.
   */
  lemma RootCrumbReturnsToRoot(b: Browser, payload: Payload, order: (string, string) -> int)
    requires IsComparator(order)
    requires Coherent(b) && b.active && b.content.IsListing()
    ensures var root := b.breadcrumb[0];
            var back := CompleteLoad(StartLoad(b), root.target, Received(payload), order);
            && root.caption == RootCaption
            && ContentsUrl(root.repoUrl, root.target) == Render(b.repoUrl) + "/contents"
            && back.currentPath == ""
            && back.breadcrumb == [Crumb(RootCaption, Render(b.repoUrl), "")]
  {
  }

  /**
   The breadcrumb outlives a failed open: after browsing folder `name` of
   repository `a`, closing, and opening `b` whose root request fails, the
   crumbs of `a` stay on screen under the title of `b`. Clicking the folder's
   crumb requests the folder of `a`, and a successful answer lists it under
   the title of `b`, with a breadcrumb calling into `b`.
   */
  lemma StaleBreadcrumbAfterFailedOpen(a: RepoRanking.Repo, b: RepoRanking.Repo, name: string,
                                       rootPayload: Payload, folderPayload: Payload, status: nat,
                                       againPayload: Payload, order: (string, string) -> int)
    requires IsComparator(order)
    requires name != "" && '/' !in name
    ensures var atRoot := CompleteLoad(Open(Initial, a), "", Received(rootPayload), order);
            var inside := CompleteLoad(StartLoad(atRoot), name, Received(folderPayload), order);
            var other := CompleteLoad(Open(Close(inside), b), "", HttpError(status), order);
            var crumb := other.breadcrumb[|other.breadcrumb| - 1];
            var again := CompleteLoad(StartLoad(other), crumb.target, Received(againPayload), order);
            && other.title == b.name + " - Files" && other.repoUrl == Some(b.url)
            && other.breadcrumb == Breadcrumbs(a.url, name)
            && crumb == Crumb(name, a.url, name)
            && ContentsUrl(crumb.repoUrl, crumb.target) == a.url + "/contents/" + name
            && again.title == b.name + " - Files"
            && again.currentPath == name
            && again.breadcrumb == Breadcrumbs(b.url, name)
  {
    BreadcrumbsOfChild(a.url, "", name);
  }

  /**
   Open a repository, enter a folder from the root listing, then click Root:
   the path is back at the root, and the folder's own crumb was the one added.
   */
  lemma OpenEnterAndReturn(repo: RepoRanking.Repo, name: string, rootPayload: Payload,
                           folderPayload: Payload, againPayload: Payload, order: (string, string) -> int)
    requires IsComparator(order)
    requires name != "" && '/' !in name
    ensures var atRoot := CompleteLoad(Open(Initial, repo), "", Received(rootPayload), order);
            var inside := CompleteLoad(StartLoad(atRoot), ChildPath(atRoot.currentPath, name), Received(folderPayload), order);
            var back := CompleteLoad(StartLoad(inside), inside.breadcrumb[0].target, Received(againPayload), order);
            && atRoot.currentPath == ""
            && inside.currentPath == name
            && inside.breadcrumb == [Crumb(RootCaption, repo.url, ""), Crumb(name, repo.url, name)]
            && back.currentPath == ""
  {
    BreadcrumbsOfChild(repo.url, "", name);
  }
}
