/**
 The file collection of the widget: the upload size guard, the newest-first
 search view that `renderFiles` draws, and the confirmation-gated delete
 attached to every row of that view.
 */
module Files {
  import opened Wrappers
  import opened Text

  /** Upload size limit: 5 MiB. */
  const MAX_FILE_SIZE: nat := 5 * 1024 * 1024

  /** The browser `File` chosen in the upload form. */
  datatype PickedFile = PickedFile(name: string, size: nat, mimeType: string, lastModified: int)

  /** One stored record; `content` holds what the file reader produced. */
  datatype FileInfo = FileInfo(name: string, size: nat, mimeType: string, lastModified: int, content: string)

  /** How the file reader is asked to read a file. */
  datatype ReadMode = DataUrl | PlainText

  /** Why an upload stored nothing; a failed read is the file reader never firing `onload`. */
  datatype UploadError = NothingSelected | TooLarge(size: nat) | ReadFailed

  /** Images are read as data URLs, everything else as text. */
  function ReadModeFor(mimeType: string): ReadMode {
    if StartsWith(mimeType, "image/") then DataUrl else PlainText
  }

  /**
   The upload form's submit handler, with the asynchronous read taken as one
   step: `read` stands for the file reader and yields the content of a file
   read in the given mode, or `None` when the read errs or is aborted and
   `onload` never runs.
   */
  function Upload(files: seq<FileInfo>, picked: Option<PickedFile>, read: (PickedFile, ReadMode) -> Option<string>)
    : (r: Result<seq<FileInfo>, UploadError>)
    ensures picked.None? ==> r == Failure(NothingSelected)
    ensures picked.Some? && picked.value.size > MAX_FILE_SIZE ==> r == Failure(TooLarge(picked.value.size))
    ensures (picked.Some? && picked.value.size <= MAX_FILE_SIZE
             && read(picked.value, ReadModeFor(picked.value.mimeType)).None?) ==> r == Failure(ReadFailed)
    ensures r.Success? <==>
              && picked.Some? && picked.value.size <= MAX_FILE_SIZE
              && read(picked.value, ReadModeFor(picked.value.mimeType)).Some?
    ensures r.Success? ==>
              && |r.value| == |files| + 1
              && r.value[..|files|] == files
              && var f := picked.value;
                 r.value[|files|] == FileInfo(f.name, f.size, f.mimeType, f.lastModified,
                                              read(f, ReadModeFor(f.mimeType)).value)
  {
    match picked
    case None => Failure(NothingSelected)
    case Some(f) =>
      if f.size > MAX_FILE_SIZE then Failure(TooLarge(f.size))
      else
        match read(f, ReadModeFor(f.mimeType))
        case None => Failure(ReadFailed)
        case Some(content) =>
          Success(files + [FileInfo(f.name, f.size, f.mimeType, f.lastModified, content)])
  }

  /** A file of exactly 5 MiB passes the guard; one byte more does not. */
  lemma UploadLimitIsInclusive(files: seq<FileInfo>, f: PickedFile, read: (PickedFile, ReadMode) -> Option<string>)
    ensures f.size == MAX_FILE_SIZE ==>
              (Upload(files, Some(f), read).Success? <==> read(f, ReadModeFor(f.mimeType)).Some?)
    ensures f.size == MAX_FILE_SIZE + 1 ==> Upload(files, Some(f), read) == Failure(TooLarge(5242881))
  {
  }

  /** `[...files].reverse()`. */
  function Reverse<T>(s: seq<T>): (r: seq<T>)
    ensures |r| == |s|
    ensures forall i :: 0 <= i < |s| ==> r[i] == s[|s| - 1 - i]
  {
    if s == [] then [] else Reverse(s[1..]) + [s[0]]
  }

  /** The keyword `renderFiles` searches for: the trimmed, lower-cased input. */
  function SearchKeyword(input: string): string {
    ToLower(Trim(input))
  }

  /** A file is shown when its lower-cased name contains the keyword. */
  predicate Matches(f: FileInfo, keyword: string) {
    Includes(ToLower(f.name), keyword)
  }

  /**
   One drawn entry of the file list: `index` is the file's position in the
   reversed, unfiltered list, the value the delete handler closes over.
   */
  datatype Row = Row(index: nat, file: FileInfo)

  /** Which positions of the reversed list pass the name test. */
  function Hits(rev: seq<FileInfo>, keyword: string): seq<bool> {
    seq(|rev|, j requires 0 <= j < |rev| => Matches(rev[j], keyword))
  }

  /** Row `k` of `rows` shows the file at a hit position `rows[k].index` of `rev`. */
  predicate RowsDescribe(rev: seq<FileInfo>, hits: seq<bool>, rows: seq<Row>)
    requires |hits| == |rev|
  {
    forall k :: 0 <= k < |rows| ==>
      rows[k].index < |rev| && rows[k].file == rev[rows[k].index] && hits[rows[k].index]
  }

  predicate StrictlyIncreasing(rows: seq<Row>) {
    forall k, l :: 0 <= k < l < |rows| ==> rows[k].index < rows[l].index
  }

  /** Some row stands for position `j`. */
  predicate Shown(rows: seq<Row>, j: nat) {
    exists k :: 0 <= k < |rows| && rows[k].index == j
  }

  /** The `forEach` over the reversed list from position `i` on, keeping the hits. */
  function RowsFrom(rev: seq<FileInfo>, hits: seq<bool>, i: nat): (rows: seq<Row>)
    requires |hits| == |rev| && i <= |rev|
    ensures RowsDescribe(rev, hits, rows)
    ensures forall k :: 0 <= k < |rows| ==> i <= rows[k].index
    ensures StrictlyIncreasing(rows)
    ensures forall j: nat {:trigger Shown(rows, j)} :: i <= j < |rev| && hits[j] ==> Shown(rows, j)
    decreases |rev| - i
  {
    if i == |rev| then []
    else
      var tail := RowsFrom(rev, hits, i + 1);
      if hits[i] then
        ConsRow(rev, hits, i, tail);
        [Row(i, rev[i])] + tail
      else tail
  }

  /** Putting the row for position `i` in front of the rows after `i` keeps them in order and complete. */
  lemma ConsRow(rev: seq<FileInfo>, hits: seq<bool>, i: nat, tail: seq<Row>)
    requires |hits| == |rev| && i < |rev| && hits[i]
    requires RowsDescribe(rev, hits, tail)
    requires forall k :: 0 <= k < |tail| ==> i + 1 <= tail[k].index
    requires StrictlyIncreasing(tail)
    requires forall j: nat {:trigger Shown(tail, j)} :: i + 1 <= j < |rev| && hits[j] ==> Shown(tail, j)
    ensures var rows := [Row(i, rev[i])] + tail;
            && RowsDescribe(rev, hits, rows)
            && (forall k :: 0 <= k < |rows| ==> i <= rows[k].index)
            && StrictlyIncreasing(rows)
            && (forall j: nat {:trigger Shown(rows, j)} :: i <= j < |rev| && hits[j] ==> Shown(rows, j))
  {
    var rows := [Row(i, rev[i])] + tail;
    assert forall k :: 1 <= k < |rows| ==> rows[k] == tail[k - 1];
    assert Shown(rows, i) by { assert rows[0].index == i; }
    forall j: nat | Shown(tail, j) ensures Shown(rows, j) {
      var k :| 0 <= k < |tail| && tail[k].index == j;
      assert rows[k + 1].index == j;
    }
  }

  /**
   What `renderFiles` draws for the search input `input`: exactly the files
   whose names match, newest first, each with its reversed-list position.
   */
  function Render(files: seq<FileInfo>, input: string): (rows: seq<Row>)
    ensures forall k :: 0 <= k < |rows| ==>
              && rows[k].index < |files|
              && rows[k].file == files[|files| - 1 - rows[k].index]
              && Matches(rows[k].file, SearchKeyword(input))
    ensures StrictlyIncreasing(rows)
    ensures forall j: nat {:trigger Shown(rows, j)} ::
              j < |files| && Matches(files[|files| - 1 - j], SearchKeyword(input)) ==> Shown(rows, j)
  {
    var rev := Reverse(files);
    var hits := Hits(rev, SearchKeyword(input));
    var rows := RowsFrom(rev, hits, 0);
    assert forall k :: 0 <= k < |rows| ==> hits[rows[k].index];
    rows
  }

  lemma RenderUnfold(files: seq<FileInfo>, input: string)
    ensures Render(files, input) == RowsFrom(Reverse(files), Hits(Reverse(files), SearchKeyword(input)), 0)
  {
  }

  /** The files a search shows, in display order. */
  function View(rows: seq<Row>): seq<FileInfo> {
    seq(|rows|, k requires 0 <= k < |rows| => rows[k].file)
  }

  /** With every position a hit, the rows are the whole list in order. */
  lemma {:induction false} RowsFromAll(rev: seq<FileInfo>, hits: seq<bool>, i: nat)
    requires |hits| == |rev| && i <= |rev|
    requires forall j :: i <= j < |rev| ==> hits[j]
    ensures |RowsFrom(rev, hits, i)| == |rev| - i
    ensures forall k :: 0 <= k < |rev| - i ==> RowsFrom(rev, hits, i)[k] == Row(i + k, rev[i + k])
    decreases |rev| - i
  {
    if i < |rev| {
      RowsFromAll(rev, hits, i + 1);
      var tail := RowsFrom(rev, hits, i + 1);
      var rows := RowsFrom(rev, hits, i);
      assert rows == [Row(i, rev[i])] + tail;
      forall k | 1 <= k < |rows| ensures rows[k] == Row(i + k, rev[i + k]) {
        assert rows[k] == tail[k - 1];
      }
    }
  }

  /** A blank search input makes every file a hit. */
  lemma BlankInputHitsAll(rev: seq<FileInfo>, input: string)
    requires AllWhitespace(input)
    ensures forall j :: 0 <= j < |rev| ==> Hits(rev, SearchKeyword(input))[j]
  {
    TrimEmptyIff(input);
    assert SearchKeyword(input) == [];
    forall j | 0 <= j < |rev| ensures Matches(rev[j], []) {
      IncludesEmpty(ToLower(rev[j].name));
    }
  }

  /** A blank search draws one row per file, in reversed order. */
  lemma RenderBlankRows(files: seq<FileInfo>, input: string)
    requires AllWhitespace(input)
    ensures |Render(files, input)| == |files|
    ensures forall k :: 0 <= k < |files| ==> Render(files, input)[k] == Row(k, Reverse(files)[k])
  {
    var rev := Reverse(files);
    BlankInputHitsAll(rev, input);
    RowsFromAll(rev, Hits(rev, SearchKeyword(input)), 0);
    RenderUnfold(files, input);
  }

  /** A blank search shows every file, newest first. */
  lemma RenderBlankShowsAll(files: seq<FileInfo>, input: string)
    requires AllWhitespace(input)
    ensures View(Render(files, input)) == Reverse(files)
    ensures forall k :: 0 <= k < |files| ==> Render(files, input)[k].index == k
  {
    RenderBlankRows(files, input);
    var rows := Render(files, input);
    var v, rev := View(rows), Reverse(files);
    assert |v| == |rev|;
    forall k | 0 <= k < |rev| ensures v[k] == rev[k] {
      assert v[k] == rows[k].file;
    }
  }

  /** Upper-casing the search input does not change what is shown. */
  lemma RenderIgnoresCase(files: seq<FileInfo>, input: string)
    ensures Render(files, ToUpper(input)) == Render(files, input)
  {
    TrimLowerIgnoresCase(input);
  }

  /** Two search inputs that agree after lower-casing draw the same rows. */
  lemma RenderDependsOnLowerCase(files: seq<FileInfo>, s: string, t: string)
    ensures ToLower(s) == ToLower(t) ==> Render(files, s) == Render(files, t)
  {
    if ToLower(s) == ToLower(t) {
      TrimLowerAgrees(s, t);
      RenderUnfold(files, s);
      RenderUnfold(files, t);
    }
  }

  /** Lower-casing the search input does not change what is shown. */
  lemma RenderIgnoresCaseLower(files: seq<FileInfo>, input: string)
    ensures Render(files, ToLower(input)) == Render(files, input)
  {
    LowerIdempotent(input);
    RenderDependsOnLowerCase(files, ToLower(input), input);
  }

  /** `files.splice(i, 1)`: removes position `i`, or nothing when `i` is past the end. */
  function Splice<T>(s: seq<T>, i: nat): (r: seq<T>)
    ensures i < |s| ==> |r| == |s| - 1 && r[..i] == s[..i] && r[i..] == s[i + 1..]
    ensures i < |s| ==> multiset(r) + multiset{s[i]} == multiset(s)
    ensures i >= |s| ==> r == s
  {
    if i < |s| then
      assert s == s[..i] + [s[i]] + s[i + 1..];
      s[..i] + s[i + 1..]
    else s
  }

  /**
   The delete handler as written: `files.splice(index, 1)` where `index` is
   the row's position in the reversed list, so it removes `files[index]`
   counted from the oldest file.
   */
  function DeleteAsWritten(files: seq<FileInfo>, index: nat, confirmed: bool): (r: seq<FileInfo>)
    ensures !confirmed || index >= |files| ==> r == files
    ensures confirmed && index < |files| ==>
              |r| == |files| - 1 && r[..index] == files[..index] && r[index..] == files[index + 1..]
              && multiset(r) + multiset{files[index]} == multiset(files)
  {
    if confirmed then Splice(files, index) else files
  }

  /**
   The delete handler as intended: it removes the file the row shows, which
   sits at `|files| - 1 - index` in upload order.
   */
  function DeleteDisplayed(files: seq<FileInfo>, index: nat, confirmed: bool): (r: seq<FileInfo>)
    ensures !confirmed || index >= |files| ==> r == files
    ensures confirmed && index < |files| ==>
              var pos := |files| - 1 - index;
              |r| == |files| - 1 && r[..pos] == files[..pos] && r[pos..] == files[pos + 1..]
              && multiset(r) + multiset{files[pos]} == multiset(files)
  {
    if confirmed && index < |files| then Splice(files, |files| - 1 - index) else files
  }

  /** Confirming the delete of any drawn row removes exactly the file that row shows. */
  lemma DeleteDisplayedRemovesRowFile(files: seq<FileInfo>, input: string, k: nat)
    requires k < |Render(files, input)|
    ensures var row := Render(files, input)[k];
            var r := DeleteDisplayed(files, row.index, true);
            |r| == |files| - 1 && multiset(r) + multiset{row.file} == multiset(files)
  {
  }

  /**
   Upload A then B and delete the top row (B, the newest): the handler as
   written removes A instead, and B survives.
   */
  lemma DeleteAsWrittenRemovesWrongFile(a: FileInfo, b: FileInfo)
    requires a != b
    ensures Render([a, b], "")[0] == Row(0, b)
    ensures DeleteAsWritten([a, b], 0, true) == [b]
    ensures DeleteDisplayed([a, b], 0, true) == [a]
  {
    RenderBlankShowsAll([a, b], "");
    var rows := Render([a, b], "");
    assert View(rows)[0] == Reverse([a, b])[0] == b;
    assert rows[0] == Row(0, b);
    assert [a, b][..0] + [a, b][1..] == [b];
  }
}
