/** File naming in `POST /api/help-requests`: every uploaded file with a name is saved
    under the request id and a running index, and listed by its public URL. */
module Uploads {
  import opened Results
  import opened Strings
  import Seqs

  /** An uploaded form part; only the client-supplied file name decides where it is saved. */
  datatype UploadFile = UploadFile(filename: string)

  /** `filename.split(".")[-1]` */
  function Extension(filename: string): string {
    AfterLast(filename, '.')
  }

  /** `f"{request_id}_{index}.{extension}"` */
  function SavedName(requestId: string, index: nat, filename: string): string {
    requestId + "_" + Numbered(index, filename)
  }

  /** The part of the saved name after the request id: `f"{index}.{extension}"`. */
  function Numbered(index: nat, filename: string): string {
    Dec(index) + ['.'] + Extension(filename)
  }

  /** Where the bytes are written, relative to the server's working directory. */
  function SavedPath(name: string): string {
    "uploads/" + name
  }

  /** The URL under which the static mount serves the file. */
  function PublicUrl(name: string): string {
    "/uploads/" + name
  }

  /** The files the handler keeps: those with a non-empty name, in upload order. */
  function NamedFiles(files: seq<UploadFile>): (r: seq<UploadFile>)
    ensures |r| <= |files|
    ensures forall f :: f in r ==> f in files && f.filename != ""
    ensures forall i :: 0 <= i < |files| && files[i].filename != "" ==> files[i] in r
  {
    if files == [] then []
    else
      NamedFiles(files[..|files| - 1]) + NamedLast(files)
  }

  /** Every file with a name is kept as often as it was uploaded, and no other file is. */
  lemma {:induction false} NamedFilesCount(files: seq<UploadFile>)
    ensures forall f :: multiset(NamedFiles(files))[f] == if f.filename != "" then multiset(files)[f] else 0
  {
    if files != [] {
      var init := files[..|files| - 1];
      assert files == init + [files[|files| - 1]];
      NamedFilesCount(init);
    }
  }

  /** What the last file of a non-empty upload list contributes. */
  function NamedLast(files: seq<UploadFile>): seq<UploadFile>
    requires files != []
  {
    var last := files[|files| - 1];
    if last.filename != "" then [last] else []
  }

  /** The kept files of two runs of uploads are those of the first, then those of the
      second: the filter keeps the upload order. */
  lemma {:induction false} NamedFilesAppend(a: seq<UploadFile>, b: seq<UploadFile>)
    ensures NamedFiles(a + b) == NamedFiles(a) + NamedFiles(b)
  {
    if b == [] {
      assert a + b == a;
    } else {
      var init := b[..|b| - 1];
      assert (a + b)[..|a + b| - 1] == a + init;
      assert NamedFiles(a + b) == NamedFiles(a + init) + NamedLast(b);
      NamedFilesAppend(a, init);
      Seqs.Associative(NamedFiles(a), NamedFiles(init), NamedLast(b));
    }
  }

  /** The stored `image_urls`: the k-th kept file is saved as `<request id>_<k>.<extension>`. */
  function ImageUrls(requestId: string, files: seq<UploadFile>): (r: seq<string>)
    ensures |r| == |NamedFiles(files)|
  {
    var named := NamedFiles(files);
    seq(|named|, k requires 0 <= k < |named| => PublicUrl(SavedName(requestId, k, named[k].filename)))
  }

  lemma ImageUrlsStep(requestId: string, files: seq<UploadFile>, i: nat)
    requires i < |files|
    ensures ImageUrls(requestId, files[..i + 1]) ==
      ImageUrls(requestId, files[..i]) +
      (if files[i].filename != "" then [PublicUrl(SavedName(requestId, |ImageUrls(requestId, files[..i])|, files[i].filename))] else [])
  {
    var prefix, longer := files[..i], files[..i + 1];
    assert longer[..i] == prefix && longer[i] == files[i];
    var named := NamedFiles(prefix);
    var named' := NamedFiles(longer);
    assert named' == named + (if files[i].filename != "" then [files[i]] else []);
    var a, b := ImageUrls(requestId, longer), ImageUrls(requestId, prefix);
    var extra := if files[i].filename != "" then [PublicUrl(SavedName(requestId, |b|, files[i].filename))] else [];
    assert |a| == |b + extra|;
    forall k | 0 <= k < |a|
      ensures a[k] == (b + extra)[k]
    {
      assert a[k] == PublicUrl(SavedName(requestId, k, named'[k].filename));
      if k < |b| {
        assert named'[k] == named[k];
      }
    }
  }

  /** The handler's loop; the index of each saved file is the number of URLs collected so far. */
  method SaveUploads(requestId: string, files: seq<UploadFile>) returns (imageUrls: seq<string>)
    ensures imageUrls == ImageUrls(requestId, files)
  {
    imageUrls := [];
    var i := 0;
    while i < |files|
      invariant 0 <= i <= |files|
      invariant imageUrls == ImageUrls(requestId, files[..i])
    {
      var file := files[i];
      ImageUrlsStep(requestId, files, i);
      if file.filename != "" {
        var filename := SavedName(requestId, |imageUrls|, file.filename);
        imageUrls := imageUrls + [PublicUrl(filename)];
      }
      assert imageUrls == ImageUrls(requestId, files[..i + 1]);
      i := i + 1;
    }
    assert files[..|files|] == files;
  }

  /** Every listed URL serves the path the matching kept file was written to. */
  lemma UrlsServeSavedPaths(requestId: string, files: seq<UploadFile>)
    ensures forall k :: 0 <= k < |ImageUrls(requestId, files)| ==>
      ImageUrls(requestId, files)[k] == "/" + SavedPath(SavedName(requestId, k, NamedFiles(files)[k].filename))
  {
    var urls, named := ImageUrls(requestId, files), NamedFiles(files);
    forall k | 0 <= k < |urls|
      ensures urls[k] == "/" + SavedPath(SavedName(requestId, k, named[k].filename))
    {
      RootedPath(SavedName(requestId, k, named[k].filename));
    }
  }

  lemma RootedPath(name: string)
    ensures PublicUrl(name) == "/" + SavedPath(name)
  {
  }

  /** The extension is the text after the last full stop, and contains none itself. */
  lemma ExtensionIsLastPiece(filename: string)
    ensures '.' !in Extension(filename)
    ensures '.' in filename ==> exists stem :: filename == stem + "." + Extension(filename)
    ensures '.' !in filename ==> Extension(filename) == filename
  {
    var e := Extension(filename);
    if '.' in filename {
      var stem := filename[..|filename| - |e| - 1];
      assert filename == stem + "." + e;
    }
  }

  /** Two kept files of one request never share a URL (nor, therefore, a saved path). */
  lemma ImageUrlsDistinct(requestId: string, files: seq<UploadFile>, i: nat, j: nat)
    requires i < j < |ImageUrls(requestId, files)|
    ensures ImageUrls(requestId, files)[i] != ImageUrls(requestId, files)[j]
  {
    var named := NamedFiles(files);
    var ni, nj := Numbered(i, named[i].filename), Numbered(j, named[j].filename);
    var si, sj := SavedName(requestId, i, named[i].filename), SavedName(requestId, j, named[j].filename);
    if PublicUrl(si) == PublicUrl(sj) {
      CancelPrefix("/uploads/", si, sj);
      CancelPrefix(requestId + "_", ni, nj);
      NumberedRecoversIndex(i, named[i].filename);
      NumberedRecoversIndex(j, named[j].filename);
      DecInjective(i, j);
    }
  }

  lemma CancelPrefix(p: string, x: string, y: string)
    requires p + x == p + y
    ensures x == y
  {
    assert x == (p + x)[|p|..];
    assert y == (p + y)[|p|..];
  }

  /** The index is read back from the numbered part: the numeral before its first full stop. */
  lemma NumberedRecoversIndex(index: nat, filename: string)
    ensures SplitFirst(Numbered(index, filename), '.') == Some((Dec(index), Extension(filename)))
  {
    NoDotInDigits(Dec(index));
    SplitFirstAt(Dec(index), '.', Extension(filename));
  }
}
