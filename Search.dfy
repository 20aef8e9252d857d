/**
 * The Drive side of a run: resolving a client's folder and searching that
 * folder tree for zip archives modified on the target day.
 *
 * The storage API is replaced by plain data. A folder query's answer is the
 * sequence of hits it returns; a folder's listing is the sequence of its
 * children in the order the API returns them, each subfolder carrying its own
 * listing. Turning a modification timestamp into a "dd/mm/yyyy" day string is
 * the parameter `day`, left uninterpreted.
 */
module ArchiveSearch {
  import opened Wrappers

  const FolderMime := "application/vnd.google-apps.folder"
  const ZipMime := "application/zip"
  const ZipSuffix := ".zip"
  /** The `pageSize` of each listing call: only the first page is read. */
  const PageSize := 1000

  /** One hit of the folder-name query: the folder's id and name. */
  datatype FolderHit = FolderHit(id: string, name: string)

  /**
   * One child in a listing. A folder (MIME type FolderMime) carries its own
   * listing; any other entry is a file whose name and modification time the
   * API may leave out. A `File` carrying FolderMime is searched like a folder
   * with no children: it yields no rows.
   */
  datatype Entry =
    | Folder(children: seq<Entry>)
    | File(mimeType: string, name: Option<string>, modifiedTime: Option<string>)

  /** One report line: client, archive name and its modification day. */
  datatype Row = Row(client: string, archive: string, modified: string)

  /** The test of the source's loop: an entry with the folder MIME type is a folder. */
  predicate IsFolder(e: Entry) {
    e.Folder? || e.mimeType == FolderMime
  }

  predicate EndsWith(s: string, suffix: string) {
    |suffix| <= |s| && s[|s| - |suffix|..] == suffix
  }

  /**
   * `get_client_folder_id`: the id of the first hit, or none when the query
   * found nothing. Later hits are ignored, whatever their names.
   */
  function FolderId(hits: seq<FolderHit>): (id: Option<string>)
    ensures id.None? <==> hits == []
    ensures id.Some? ==> id.value == hits[0].id
  {
    if hits == [] then None else Some(hits[0].id)
  }

  /**
   * When several folders match, the first hit decides: hits after it, however
   * many and whatever they are, never change the answer.
   */
  lemma FirstHitWins(first: FolderHit, later: seq<FolderHit>, others: seq<FolderHit>)
    ensures FolderId([first] + later) == FolderId([first] + others) == Some(first.id)
  {
  }

  /** The children the single listing call returns: at most the first PageSize. */
  function Page(children: seq<Entry>): (page: seq<Entry>)
    ensures |page| == if |children| <= PageSize then |children| else PageSize
    ensures page == children[..|page|]
  {
    if |children| <= PageSize then children else children[..PageSize]
  }

  /** A file that yields a row: it has a name and a time, is a zip, and was modified on `target`. */
  predicate Qualifies(f: Entry, target: string, day: string -> string)
    ensures Qualifies(f, target, day) ==> !IsFolder(f)
    ensures Qualifies(f, target, day) ==>
              f.File? && f.name.Some? && f.modifiedTime.Some? &&
              EndsWith(f.name.value, ZipSuffix) && day(f.modifiedTime.value) == target
  {
    && f.File?
    && f.name.Some? && f.modifiedTime.Some?
    && f.mimeType == ZipMime
    && EndsWith(f.name.value, ZipSuffix)
    && day(f.modifiedTime.value) == target
  }

  /** What a row promises about itself. */
  predicate RowFits(r: Row, client: string, target: string) {
    r.client == client && EndsWith(r.archive, ZipSuffix) && r.modified == target
  }

  /** The row a qualifying file produces. */
  function RowFor(f: Entry, client: string, day: string -> string): Row
    requires f.File? && f.name.Some? && f.modifiedTime.Some?
  {
    Row(client, f.name.value, day(f.modifiedTime.value))
  }

  /** `search_files_in_folder` on a folder whose listing is `children`. */
  function SearchFolder(children: seq<Entry>, client: string, target: string, day: string -> string): (rows: seq<Row>)
    ensures forall r :: r in rows ==> RowFits(r, client, target)
    decreases children, 1
  {
    SearchPage(Page(children), client, target, day)
  }

  /** The loop over one page of a listing, accumulating the rows of each entry in turn. */
  function SearchPage(page: seq<Entry>, client: string, target: string, day: string -> string): (rows: seq<Row>)
    ensures forall r :: r in rows ==> RowFits(r, client, target)
    decreases page, 0
  {
    if page == [] then []
    else SearchEntry(page[0], client, target, day) + SearchPage(page[1..], client, target, day)
  }

  /** The loop body: recurse into a folder, or test a file. */
  function SearchEntry(e: Entry, client: string, target: string, day: string -> string): (rows: seq<Row>)
    ensures forall r :: r in rows ==> RowFits(r, client, target)
    decreases e, 2
  {
    match e
    case Folder(children) => SearchFolder(children, client, target, day)
    case File(_, _, _) => FileRows(e, client, target, day)
  }

  /** The rows one file yields: its row when it qualifies, none otherwise. */
  function FileRows(f: Entry, client: string, target: string, day: string -> string): (rows: seq<Row>)
    ensures forall r :: r in rows ==> RowFits(r, client, target)
    ensures rows == [] || (f.File? && f.name.Some? && f.modifiedTime.Some? && rows == [RowFor(f, client, day)])
  {
    if Qualifies(f, target, day) then [RowFor(f, client, day)] else []
  }

  // ---------------------------------------------------------------------------
  // Reference definition: the depth-first walk, then a filter over the files.

  /** The non-folder entries the search visits, in depth-first listing order. */
  function WalkFolder(children: seq<Entry>): (files: seq<Entry>)
    ensures forall f :: f in files ==> f.File?
    decreases children, 1
  {
    WalkPage(Page(children))
  }

  function WalkPage(page: seq<Entry>): (files: seq<Entry>)
    ensures forall f :: f in files ==> f.File?
    decreases page, 0
  {
    if page == [] then [] else WalkEntry(page[0]) + WalkPage(page[1..])
  }

  function WalkEntry(e: Entry): (files: seq<Entry>)
    ensures forall f :: f in files ==> f.File?
    decreases e, 2
  {
    match e
    case Folder(children) => WalkFolder(children)
    case File(_, _, _) => [e]
  }

  /** One row per qualifying file, in the order of `files`. */
  function Select(files: seq<Entry>, client: string, target: string, day: string -> string): seq<Row> {
    if files == [] then []
    else
      FileRows(files[0], client, target, day) + Select(files[1..], client, target, day)
  }

  lemma {:induction false} SelectAppend(a: seq<Entry>, b: seq<Entry>, client: string, target: string, day: string -> string)
    ensures Select(a + b, client, target, day) == Select(a, client, target, day) + Select(b, client, target, day)
  {
    if a == [] {
      assert a + b == b;
    } else {
      assert (a + b)[1..] == a[1..] + b;
      SelectAppend(a[1..], b, client, target, day);
    }
  }

  /** A row is selected exactly when some qualifying file produces it. */
  lemma {:induction false} SelectMembers(files: seq<Entry>, client: string, target: string, day: string -> string, r: Row)
    ensures r in Select(files, client, target, day) <==>
            exists k :: 0 <= k < |files| && Qualifies(files[k], target, day) && r == RowFor(files[k], client, day)
  {
    if files != [] {
      SelectMembers(files[1..], client, target, day, r);
      if r in Select(files[1..], client, target, day) {
        var k :| 0 <= k < |files[1..]| && Qualifies(files[1..][k], target, day) && r == RowFor(files[1..][k], client, day);
        assert files[k + 1] == files[1..][k];
      }
      if exists k :: 0 <= k < |files| && Qualifies(files[k], target, day) && r == RowFor(files[k], client, day) {
        var k :| 0 <= k < |files| && Qualifies(files[k], target, day) && r == RowFor(files[k], client, day);
        if k > 0 {
          assert files[1..][k - 1] == files[k];
        }
      }
    }
  }

  /**
   * The search is the depth-first walk filtered to the qualifying files: each
   * such file yields exactly one row, in walk order, and nothing else does.
   */
  lemma {:induction false} SearchIsSelectOfWalk(children: seq<Entry>, client: string, target: string, day: string -> string)
    ensures SearchFolder(children, client, target, day) == Select(WalkFolder(children), client, target, day)
    decreases children, 1
  {
    SearchPageIsSelectOfWalk(Page(children), client, target, day);
  }

  lemma {:induction false} SearchPageIsSelectOfWalk(page: seq<Entry>, client: string, target: string, day: string -> string)
    ensures SearchPage(page, client, target, day) == Select(WalkPage(page), client, target, day)
    decreases page, 0
  {
    if page != [] {
      SearchEntryIsSelectOfWalk(page[0], client, target, day);
      SearchPageIsSelectOfWalk(page[1..], client, target, day);
      SelectAppend(WalkEntry(page[0]), WalkPage(page[1..]), client, target, day);
    }
  }

  lemma {:induction false} SearchEntryIsSelectOfWalk(e: Entry, client: string, target: string, day: string -> string)
    ensures SearchEntry(e, client, target, day) == Select(WalkEntry(e), client, target, day)
    decreases e, 2
  {
    match e
    case Folder(children) =>
      SearchIsSelectOfWalk(children, client, target, day);
    case File(_, _, _) =>
      assert [e][1..] == [];
  }

  /**
   * A row is in the result exactly when a qualifying file of the walk
   * produces it; folders never produce rows.
   */
  lemma SearchRowsComeFromQualifyingFiles(children: seq<Entry>, client: string, target: string, day: string -> string, r: Row)
    ensures r in SearchFolder(children, client, target, day) <==>
            exists f :: f in WalkFolder(children) && Qualifies(f, target, day) && r == RowFor(f, client, day)
  {
    var files := WalkFolder(children);
    SearchIsSelectOfWalk(children, client, target, day);
    SelectMembers(files, client, target, day, r);
    if exists f :: f in files && Qualifies(f, target, day) && r == RowFor(f, client, day) {
      var f :| f in files && Qualifies(f, target, day) && r == RowFor(f, client, day);
      var k :| 0 <= k < |files| && files[k] == f;
    }
  }

  /** Rows of consecutive entries of a page come out one after the other. */
  lemma {:induction false} SearchPageAppend(a: seq<Entry>, b: seq<Entry>, client: string, target: string, day: string -> string)
    ensures SearchPage(a + b, client, target, day) == SearchPage(a, client, target, day) + SearchPage(b, client, target, day)
  {
    if a == [] {
      assert a + b == b;
    } else {
      assert (a + b)[1..] == a[1..] + b;
      SearchPageAppend(a[1..], b, client, target, day);
    }
  }

  /** A subfolder's rows are spliced in at the subfolder's position among its siblings. */
  lemma SubfolderRowsSpliced(before: seq<Entry>, sub: seq<Entry>, after: seq<Entry>,
                             client: string, target: string, day: string -> string)
    ensures SearchPage(before + [Folder(sub)] + after, client, target, day) ==
            SearchPage(before, client, target, day) + SearchFolder(sub, client, target, day)
            + SearchPage(after, client, target, day)
  {
    SearchPageAppend(before + [Folder(sub)], after, client, target, day);
    SearchPageAppend(before, [Folder(sub)], client, target, day);
    assert [Folder(sub)][1..] == [];
  }

  /** Entries past the first page of a listing are never searched. */
  lemma EntriesPastFirstPageIgnored(children: seq<Entry>, more: seq<Entry>, client: string, target: string, day: string -> string)
    requires |children| >= PageSize
    ensures SearchFolder(children + more, client, target, day) == SearchFolder(children, client, target, day)
  {
    assert Page(children + more) == Page(children);
  }

  /**
   * Two archives, one modified on the target day and one on the next: the
   * search returns one row, for the first.
   */
  lemma OneOfTwoArchivesMatches()
    ensures
      var day := (t: string) => if t == "2024-05-01T10:00:00Z" then "01/05/2024" else "02/05/2024";
      var a := File(ZipMime, Some("a.zip"), Some("2024-05-01T10:00:00Z"));
      var b := File(ZipMime, Some("b.zip"), Some("2024-05-02T10:00:00Z"));
      SearchFolder([a, b], "Acme", "01/05/2024", day) == [Row("Acme", "a.zip", "01/05/2024")]
  {
    var day := (t: string) => if t == "2024-05-01T10:00:00Z" then "01/05/2024" else "02/05/2024";
    var a := File(ZipMime, Some("a.zip"), Some("2024-05-01T10:00:00Z"));
    var b := File(ZipMime, Some("b.zip"), Some("2024-05-02T10:00:00Z"));
    assert "a.zip"[1..] == ZipSuffix;
    assert Qualifies(a, "01/05/2024", day);
    assert !Qualifies(b, "01/05/2024", day);
    assert Page([a, b]) == [a, b];
    assert [a, b][1..] == [b];
    assert SearchPage([b], "Acme", "01/05/2024", day) == [] by {
      assert [b][1..] == [];
    }
    assert SearchEntry(a, "Acme", "01/05/2024", day) == [Row("Acme", "a.zip", "01/05/2024")];
  }
}
