/**
 * The `ScentFiles` object: saving fetched pages, rendered documents and named
 * content under the cache root, raw byte writes, and appending log lines.
 *
 * The file system is a map from path to the bytes of the regular file there.
 * Each operation is specified by a function from the old map to the new one
 * (`AfterSaveBytes`, `AfterSavePageTo`, `AfterSaveNamed`, `AfterAppendLog`); the
 * lemmas state what the source promises of those functions, and the methods of
 * `Store` perform the operations step by step and are proved to end in the
 * state they give.
 */
module ScentFiles {
  import opened Text
  import opened UnixPaths
  import opened ScentPaths

  /** What saving reads of a `WebPage`: its base URL, the file name decoded from
      its Content-Disposition header, and the backing array of its content. */
  datatype WebPage = WebPage(baseUrl: string, dispositionFilename: Option<string>, content: Option<seq<byte>>)

  /** What saving reads of a jsoup `Document`: its base URI and `outerHtml()`. */
  datatype Document = Document(baseUri: string, outerHtml: string)

  /** The regular files on disk: their paths and their bytes. */
  type Disk = map<Path, seq<byte>>

  /** Every file other than the one at `path` is the same before and after. */
  ghost predicate OnlyChanges(d: Disk, d': Disk, path: Path) {
    && (forall q :: q in d && q != path ==> q in d' && d'[q] == d[q])
    && (forall q :: q in d' && q != path ==> q in d)
  }

  /** The longest extension that gets a directory of its own. */
  const MaxBucketLength := 5

  // ---------------------------------------------------------------------------
  // Where `save(page, ident)` puts a page
  // ---------------------------------------------------------------------------

  /** The disposition file name if the page has one, else the digest of its URL. */
  function PageFileName(md5: string -> string, page: WebPage): (name: string)
    ensures page.dispositionFilename.Some? ==> name == page.dispositionFilename.value
    ensures page.dispositionFilename.None? ==> name == md5(page.baseUrl)
    ensures (page.dispositionFilename.None? && IsMd5Hex(md5(page.baseUrl)))
            ==> (|name| == 32 && Clean(name) && '.' !in name)
  {
    page.dispositionFilename.GetOr(FromUri(md5, page.baseUrl, ""))
  }

  /**
   * The directory a file name is grouped under: the lower-cased text after its
   * first '.', or "other" when that text is longer than five characters.
   */
  function ExtensionBucket(filename: string): (b: string)
    ensures |b| <= MaxBucketLength
    ensures b == "other" || (|b| <= |filename| && b == ToLower(filename[|filename| - |b|..]))
  {
    var postfix := ToLower(SubstringAfter(filename, "."));
    if |postfix| > MaxBucketLength then "other" else postfix
  }

  /** A name with a '.' is bucketed by what follows its first '.'. */
  lemma BucketAfterFirstDot(filename: string, k: nat)
    requires k < |filename| && filename[k] == '.'
    requires forall j :: 0 <= j < k ==> filename[j] != '.'
    ensures ExtensionBucket(filename)
         == if |filename| - (k + 1) <= MaxBucketLength then ToLower(filename[k + 1..]) else "other"
  {
    OccursAtChar(filename, '.', k);
    forall j | 0 <= j < k ensures !OccursAt(filename, ".", j) {
      OccursAtChar(filename, '.', j);
    }
    SubstringAfterFound(filename, ".", k);
  }

  /**
   * A name without a '.' is bucketed by the whole name, because Kotlin's
   * `substringAfter` returns its receiver when the delimiter is missing.
   */
  lemma BucketWithoutDot(filename: string)
    requires '.' !in filename
    ensures ExtensionBucket(filename)
         == if |filename| <= MaxBucketLength then ToLower(filename) else "other"
  {
    forall j ensures !OccursAt(filename, ".", j) {
      OccursAtChar(filename, '.', j);
    }
  }

  /** A bucket taken from a name without '/' has no '/' either. */
  lemma BucketClean(filename: string)
    requires Clean(filename)
    ensures Clean(ExtensionBucket(filename))
  {
    var b := ExtensionBucket(filename);
    if b != "other" {
      var tail := filename[|filename| - |b|..];
      assert '/' !in tail by {
        forall i | 0 <= i < |tail| ensures tail[i] != '/' {
          assert tail[i] == filename[|filename| - |b| + i];
        }
      }
      ToLowerKeepsNonLetter(tail, '/');
    } else {
      assert Clean("other");
    }
  }

  /** A page named by the digest of its URL always lands in the "other" bucket. */
  lemma HashNamedPageBucket(md5: string -> string, page: WebPage)
    requires page.dispositionFilename.None? && IsMd5Hex(md5(page.baseUrl))
    ensures ExtensionBucket(PageFileName(md5, page)) == "other"
  {
    var name := PageFileName(md5, page);
    assert name == md5(page.baseUrl);
    BucketWithoutDot(name);
  }

  /** "report.html" is grouped under "html". */
  lemma BucketOfReport()
    ensures ExtensionBucket("report.html") == "html"
  {
    BucketAfterFirstDot("report.html", 6);
  }

  /** A suffix longer than five characters is grouped under "other". */
  lemma BucketOfLongSuffix()
    ensures ExtensionBucket("a.verylongextension") == "other"
  {
    BucketAfterFirstDot("a.verylongextension", 1);
  }

  /** Without a '.', the whole name, lower-cased, is the bucket. */
  lemma BucketOfBareName()
    ensures ExtensionBucket("NOTES") == "notes"
  {
    BucketWithoutDot("NOTES");
  }

  /**
   * `save(page, ident)`'s target: cache/files/<ident>/<bucket>/<file name>.
   * Under a joinable root and with clean names it has a parent directory, so
   * its write cannot hit the null-parent failure.
   */
  ghost function PageFilePath(root: Path, md5: string -> string, page: WebPage, ident: string): (p: Path)
    ensures Joinable(root) && Clean(ident) && Clean(PageFileName(md5, page)) ==> HasParent(p)
  {
    var filename := PageFileName(md5, page);
    var more := ["files", ident, ExtensionBucket(filename), filename];
    if Joinable(root) && Clean(ident) && Clean(filename) then
      BucketClean(filename);
      PageSegmentsClean(ident, ExtensionBucket(filename), filename);
      GetHasParent(root, "cache", more);
      Get(root, "cache", more)
    else
      Get(root, "cache", more)
  }

  /**
   * With clean names, a page lands at root/cache/files/ident/bucket/name, where
   * an empty ident or an empty bucket is left out.
   */
  lemma PageFilePathLayout(root: Path, md5: string -> string, page: WebPage, ident: string)
    requires Joinable(root) && Clean(ident) && Clean(PageFileName(md5, page))
    ensures var name := PageFileName(md5, page);
            PageFilePath(root, md5, page, ident)
            == root + ("/cache/files" + Tail([ident, ExtensionBucket(name), name]))
  {
    var name := PageFileName(md5, page);
    var bucket := ExtensionBucket(name);
    BucketClean(name);
    PageSegmentsClean(ident, bucket, name);
    GetLayout(root, "cache", ["files", ident, bucket, name]);
    PageTail(ident, bucket, name);
  }

  /** Every segment of a page's path is clean when the ident, the bucket and the file name are. */
  lemma PageSegmentsClean(ident: string, bucket: string, name: string)
    requires Clean(ident) && Clean(bucket) && Clean(name)
    ensures AllClean(["cache"] + ["files", ident, bucket, name])
  {
    var segments := ["cache", "files", ident, bucket, name];
    assert ["cache"] + ["files", ident, bucket, name] == segments;
    assert Clean("cache") && Clean("files");
    forall i | 0 <= i < |segments| ensures Clean(segments[i]) {
      if i == 0 {
        assert segments[i] == "cache";
      } else if i == 1 {
        assert segments[i] == "files";
      } else if i == 2 {
        assert segments[i] == ident;
      } else if i == 3 {
        assert segments[i] == bucket;
      } else {
        assert segments[i] == name;
      }
    }
  }

  /** The part below the root of a page's path. */
  lemma PageTail(ident: string, bucket: string, name: string)
    ensures Tail(["cache"] + ["files", ident, bucket, name]) == "/cache/files" + Tail([ident, bucket, name])
  {
    assert ["cache"] + ["files", ident, bucket, name] == ["cache", "files"] + [ident, bucket, name];
    FilesTail([ident, bucket, name]);
  }

  /** `relative` gives back everything of a saved page's path after the root. */
  lemma PageFileRelative(root: Path, md5: string -> string, page: WebPage, ident: string)
    requires Joinable(root) && Clean(ident) && Clean(PageFileName(md5, page))
    ensures var name := PageFileName(md5, page);
            Relative(root, PageFilePath(root, md5, page, ident))
            == "/cache/files" + Tail([ident, ExtensionBucket(name), name])
  {
    var name := PageFileName(md5, page);
    PageFilePathLayout(root, md5, page, ident);
    RelativeAfterRoot(root, "/cache/files" + Tail([ident, ExtensionBucket(name), name]));
  }

  /** The first two segments of a cache path, one '/' before each. */
  lemma CacheTail(category: string, more: seq<string>)
    requires category != ""
    ensures Tail(["cache", category] + more) == "/" + "cache" + ("/" + category + Tail(more))
  {
    assert ["cache", category] + more == ["cache"] + ([category] + more);
    TailCons(category, more);
    TailCons("cache", [category] + more);
  }

  /** The part below the root of cache/files/<more...>. */
  lemma FilesTail(more: seq<string>)
    ensures Tail(["cache", "files"] + more) == "/cache/files" + Tail(more)
  {
    CacheTail("files", more);
    assert "/" + "cache" + "/" + "files" == "/cache/files";
    assert "/" + "cache" + ("/" + "files" + Tail(more)) == "/cache/files" + Tail(more);
  }

  /** The part below the root of cache/html/<more...>. */
  lemma HtmlTail(more: seq<string>)
    ensures Tail(["cache", "html"] + more) == "/cache/html" + Tail(more)
  {
    CacheTail("html", more);
    assert "/" + "cache" + "/" + "html" == "/cache/html";
    assert "/" + "cache" + ("/" + "html" + Tail(more)) == "/cache/html" + Tail(more);
  }

  /** An ident followed by two non-empty segments. */
  lemma IdentThenTwo(ident: string, bucket: string, name: string)
    requires bucket != "" && name != ""
    ensures Tail([ident, bucket, name]) == Tail([ident]) + ("/" + bucket + ("/" + name))
  {
    assert [ident, bucket, name] == [ident] + ([bucket] + [name]);
    TailConcat([ident], [bucket] + [name]);
    TailCons(bucket, [name]);
    TailSingle(name);
  }

  /** Below the root, a page with a non-empty bucket sits at /cache/files[/ident]/<bucket>/<name>. */
  lemma PageTailInBucket(ident: string, bucket: string, name: string)
    requires bucket != "" && name != ""
    ensures "/cache/files" + Tail([ident, bucket, name])
         == "/cache/files" + Tail([ident]) + "/" + bucket + "/" + name
  {
    IdentThenTwo(ident, bucket, name);
    var t := Tail([ident]);
    assert "/cache/files" + (t + ("/" + bucket + ("/" + name))) == "/cache/files" + t + "/" + bucket + "/" + name;
  }

  /** A page without a disposition file name is saved at cache/files[/ident]/other/<md5>. */
  lemma HashNamedPagePath(root: Path, md5: string -> string, page: WebPage, ident: string)
    requires Joinable(root) && Clean(ident)
    requires page.dispositionFilename.None? && IsMd5Hex(md5(page.baseUrl))
    ensures PageFilePath(root, md5, page, ident)
         == root + ("/cache/files" + Tail([ident]) + "/other/" + md5(page.baseUrl))
  {
    var name := md5(page.baseUrl);
    FromUriClean(md5, page.baseUrl, "");
    HashNamedPageBucket(md5, page);
    PageFilePathLayout(root, md5, page, ident);
    OtherTail(ident, name);
  }

  /** Below the root, a hash-named page sits at /cache/files[/ident]/other/<name>. */
  lemma OtherTail(ident: string, name: string)
    requires name != ""
    ensures "/cache/files" + Tail([ident, "other", name])
         == "/cache/files" + Tail([ident]) + "/other/" + name
  {
    PageTailInBucket(ident, "other", name);
    assert "/" + "other" + "/" == "/other/";
    var p := "/cache/files" + Tail([ident]);
    assert p + "/" + "other" + "/" + name == p + "/other/" + name;
  }

  /**
   * `save(doc, ident)`'s target: cache/html/<ident>/<md5 of the base URI>.htm.
   * Under a joinable root, with a clean ident and a digest of the expected
   * shape, it has a parent directory.
   */
  ghost function DocumentPath(root: Path, md5: string -> string, doc: Document, ident: string): (p: Path)
    ensures Joinable(root) && Clean(ident) && IsMd5Hex(md5(doc.baseUri)) ==> HasParent(p)
  {
    var more := ["html", ident, FromUri(md5, doc.baseUri, ".htm")];
    if Joinable(root) && Clean(ident) && IsMd5Hex(md5(doc.baseUri)) then
      FromUriClean(md5, doc.baseUri, ".htm");
      assert AllClean(["cache"] + more);
      GetHasParent(root, "cache", more);
      Get(root, "cache", more)
    else
      Get(root, "cache", more)
  }

  /** With a clean ident, a document lands at root/cache/html[/ident]/<md5>.htm. */
  lemma DocumentPathLayout(root: Path, md5: string -> string, doc: Document, ident: string)
    requires Joinable(root) && Clean(ident) && IsMd5Hex(md5(doc.baseUri))
    ensures DocumentPath(root, md5, doc, ident)
         == root + ("/cache/html" + Tail([ident]) + "/" + md5(doc.baseUri) + ".htm")
  {
    var name := FromUri(md5, doc.baseUri, ".htm");
    FromUriClean(md5, doc.baseUri, ".htm");
    assert AllClean(["cache"] + ["html", ident, name]);
    GetLayout(root, "cache", ["html", ident, name]);
    DocumentTail(ident, md5(doc.baseUri));
  }

  /** Below the root, a document sits at /cache/html[/ident]/<digest>.htm. */
  lemma DocumentTail(ident: string, digest: string)
    ensures Tail(["cache", "html", ident, digest + ".htm"])
         == "/cache/html" + Tail([ident]) + "/" + digest + ".htm"
  {
    var name := digest + ".htm";
    assert ["cache", "html", ident, name] == ["cache", "html"] + ([ident] + [name]);
    HtmlTail([ident] + [name]);
    TailConcat([ident], [name]);
    TailSingle(name);
    var t := Tail([ident]);
    assert "/cache/html" + (t + ("/" + (digest + ".htm"))) == "/cache/html" + t + "/" + digest + ".htm";
  }

  // ---------------------------------------------------------------------------
  // What each write leaves on disk
  // ---------------------------------------------------------------------------

  /**
   * Writing `content` from offset 0 into a file that held `prior`, without
   * truncating it: the content comes first, and whatever of the old file lies
   * beyond it stays.
   */
  function Overlay(prior: seq<byte>, content: seq<byte>): (r: seq<byte>)
    ensures |r| == if |content| < |prior| then |prior| else |content|
    ensures r[..|content|] == content
    ensures forall i :: |content| <= i < |r| ==> r[i] == prior[i]
  {
    if |content| < |prior| then content + prior[|content|..] else content
  }

  /** A later write at least as long as an earlier one hides it completely. */
  lemma OverlayHidesShorter(prior: seq<byte>, a: seq<byte>, b: seq<byte>)
    requires |a| <= |b|
    ensures Overlay(Overlay(prior, a), b) == Overlay(prior, b)
  {
    var lhs, rhs := Overlay(Overlay(prior, a), b), Overlay(prior, b);
    assert |lhs| == |rhs|;
    forall i | 0 <= i < |lhs| ensures lhs[i] == rhs[i] {
      if i < |b| {
        assert lhs[..|b|][i] == rhs[..|b|][i];
      }
    }
  }

  /**
   * `saveTo(content, path, deleteIfExists)`: optionally delete, then create the
   * parent directories, which throws a NullPointerException for a path without
   * a parent, then write with CREATE and WRITE but without TRUNCATE_EXISTING.
   */
  function AfterSaveBytes(d: Disk, content: seq<byte>, path: Path, deleteIfExists: bool): (d': Disk)
    ensures OnlyChanges(d, d', path)
    ensures HasParent(path) ==> path in d' && |content| <= |d'[path]| && content <= d'[path]
  {
    var kept := if deleteIfExists then d - {path} else d;
    if !HasParent(path) then kept
    else kept[path := Overlay(if path in kept then kept[path] else [], content)]
  }

  /**
   * A raw write touches only its path. The file then holds exactly `content`
   * if and only if it was deleted first, was absent, or was no longer than
   * `content`; otherwise the old file's tail survives behind the new bytes.
   */
  lemma SaveBytesResult(d: Disk, content: seq<byte>, path: Path, deleteIfExists: bool)
    requires HasParent(path)
    ensures var d' := AfterSaveBytes(d, content, path, deleteIfExists);
            && d'.Keys == d.Keys + {path}
            && (forall q :: q in d && q != path ==> d'[q] == d[q])
            && (d'[path] == content <==> deleteIfExists || path !in d || |d[path]| <= |content|)
            && ((!deleteIfExists && path in d && |content| < |d[path]|)
                  ==> d'[path] == content + d[path][|content|..])
  {
    var d' := AfterSaveBytes(d, content, path, deleteIfExists);
    if !deleteIfExists && path in d && |content| < |d[path]| {
      assert |d'[path]| == |d[path]| > |content|;
    }
  }

  /**
   * A raw write to a path without a parent writes nothing; only the deletion
   * that precedes the failing `createDirectories` has happened.
   */
  lemma SaveBytesWithoutParent(d: Disk, content: seq<byte>, path: Path, deleteIfExists: bool)
    requires !HasParent(path)
    ensures path !in d ==> AfterSaveBytes(d, content, path, deleteIfExists) == d
    ensures path in d ==> (AfterSaveBytes(d, content, path, deleteIfExists) == d <==> !deleteIfExists)
  {
    if path in d && deleteIfExists {
      assert path !in AfterSaveBytes(d, content, path, deleteIfExists);
    }
  }

  /** Writing one byte over a three-byte file keeps the last two old bytes. */
  lemma SaveBytesKeepsStaleTail(path: Path)
    requires HasParent(path)
    ensures AfterSaveBytes(map[path := [1, 2, 3]], [9], path, false)[path] == [9, 2, 3]
    ensures AfterSaveBytes(map[path := [1, 2, 3]], [9], path, true)[path] == [9]
  {
    var prior: seq<byte> := [1, 2, 3];
    assert Overlay(prior, [9]) == [9] + prior[1..];
  }

  /** The bytes `saveTo(page, path)` writes: the content, or "(empty)" in UTF-8. */
  function PageBytes(page: WebPage): (bytes: seq<byte>)
    ensures page.content.Some? ==> bytes == page.content.value
    ensures page.content.None? ==> bytes == [0x28, 0x65, 0x6D, 0x70, 0x74, 0x79, 0x29]
  {
    EmptyPlaceholderBytes();
    page.content.GetOr(Utf8("(empty)"))
  }

  /** The placeholder written for a page without content is the 7 ASCII bytes of "(empty)". */
  lemma EmptyPlaceholderBytes()
    ensures Utf8("(empty)") == [0x28, 0x65, 0x6D, 0x70, 0x74, 0x79, 0x29]
  {
    Utf8Ascii("(empty)");
  }

  /** `saveTo(page, path)`: write the page only when nothing is at the path yet. */
  function AfterSavePageTo(d: Disk, page: WebPage, path: Path): (d': Disk)
    ensures OnlyChanges(d, d', path)
    ensures path in d ==> d' == d
  {
    if path in d then d else AfterSaveBytes(d, PageBytes(page), path, false)
  }

  /** First write wins: an existing file is left alone, an absent one gets the page bytes. */
  lemma SavePageToFirstWriteWins(d: Disk, page: WebPage, path: Path)
    ensures path in d ==> AfterSavePageTo(d, page, path) == d
    ensures path !in d && HasParent(path) ==> AfterSavePageTo(d, page, path) == d[path := PageBytes(page)]
    ensures path !in d && !HasParent(path) ==> AfterSavePageTo(d, page, path) == d
  {
  }

  /** Saving to the same path twice, even a different page, is the same as saving once. */
  lemma SavePageToIdempotent(d: Disk, first: WebPage, second: WebPage, path: Path)
    ensures AfterSavePageTo(AfterSavePageTo(d, first, path), second, path)
         == AfterSavePageTo(d, first, path)
  {
    SavePageToFirstWriteWins(d, first, path);
  }

  /**
   * Re-saving a document whose new markup encodes to fewer bytes than the file
   * already holds leaves the old file's tail after the new markup.
   */
  lemma SaveDocumentOverLonger(d: Disk, root: Path, md5: string -> string, doc: Document, ident: string)
    requires Joinable(root) && Clean(ident) && IsMd5Hex(md5(doc.baseUri))
    requires var path := DocumentPath(root, md5, doc, ident);
             path in d && |Utf8(doc.outerHtml)| < |d[path]|
    ensures var path := DocumentPath(root, md5, doc, ident);
            var html := Utf8(doc.outerHtml);
            AfterSaveBytes(d, html, path, false)[path] == html + d[path][|html|..]
            && AfterSaveBytes(d, html, path, false)[path] != html
  {
    SaveBytesResult(d, Utf8(doc.outerHtml), DocumentPath(root, md5, doc, ident), false);
  }

  /**
   * `save(content, ident, filename)`: delete, create the parent directories
   * (a NullPointerException without a parent), then write with CREATE_NEW.
   */
  function AfterSaveNamed(d: Disk, path: Path, content: seq<byte>): (d': Disk)
    ensures OnlyChanges(d, d', path)
    ensures HasParent(path) ==> path in d' && d'[path] == content
    ensures !HasParent(path) ==> path !in d'
  {
    var kept := d - {path};
    if HasParent(path) then kept[path := content] else kept
  }

  /**
   * Whatever was at the path before, a named save leaves exactly the content
   * there, touching nothing else; without a parent it only deletes.
   */
  lemma SaveNamedExact(d: Disk, path: Path, content: seq<byte>)
    ensures var d' := AfterSaveNamed(d, path, content);
            && (forall q :: q in d && q != path ==> q in d' && d'[q] == d[q])
            && (HasParent(path) ==> d'.Keys == d.Keys + {path} && d'[path] == content)
            && (!HasParent(path) ==> d'.Keys == d.Keys - {path})
  {
  }

  /** Unlike a raw write, a named save over a longer file leaves no stale tail. */
  lemma SaveNamedOverLonger(d: Disk, path: Path, content: seq<byte>)
    requires HasParent(path) && path in d && |content| < |d[path]|
    ensures AfterSaveNamed(d, path, content)[path] == content
    ensures AfterSaveBytes(d, content, path, false)[path] != content
  {
    SaveNamedExact(d, path, content);
    SaveBytesResult(d, content, path, false);
  }

  /**
   * `appendLog`: the encoded line is added at the end of the file, which is
   * created if absent. Opening "" or the directory "/" throws an IOException,
   * which is caught, so nothing changes.
   */
  function AfterAppendLog(d: Disk, path: Path, line: string): (d': Disk)
    ensures OnlyChanges(d, d', path)
    ensures path == "" || path == "/" ==> d' == d
    ensures path != "" && path != "/" ==> path in d' && |d'[path]| >= |Utf8(line)|
    ensures path in d && path != "" && path != "/" ==> d[path] <= d'[path]
  {
    if path == "" || path == "/" then d
    else d[path := (if path in d then d[path] else []) + Utf8(line)]
  }

  /** The bytes of a log entry: the timestamp, one space byte, the message. */
  lemma LogLineBytes(now: string, message: string)
    ensures Utf8(now + " " + message) == Utf8(now) + [0x20] + Utf8(message)
  {
    Utf8Concat(now + " ", message);
    Utf8Concat(now, " ");
    assert Utf8(" ") == [0x20] by {
      assert " "[1..] == [];
    }
  }

  /**
   * A log entry is the old file, then the timestamp, one space byte and the
   * message; nothing else on disk changes. A path that cannot be opened is
   * left as it was.
   */
  lemma AppendLogBytes(d: Disk, path: Path, now: string, message: string)
    ensures var d' := AfterAppendLog(d, path, now + " " + message);
            var prior := if path in d then d[path] else [];
            if path == "" || path == "/" then d' == d
            else
              && d'.Keys == d.Keys + {path}
              && (forall q :: q in d && q != path ==> d'[q] == d[q])
              && d'[path] == prior + (Utf8(now) + [0x20] + Utf8(message))
  {
    LogLineBytes(now, message);
  }

  /** Two appends run together: no separator is written between entries. */
  lemma AppendLogTwice(d: Disk, path: Path, line1: string, line2: string)
    requires path != "" && path != "/"
    ensures var prior := if path in d then d[path] else [];
            (AfterAppendLog(AfterAppendLog(d, path, line1), path, line2)[path]
             == prior + Utf8(line1 + line2))
  {
    var prior := if path in d then d[path] else [];
    var d1 := AfterAppendLog(d, path, line1);
    assert d1[path] == prior + Utf8(line1);
    Utf8Concat(line1, line2);
    ConcatAssoc(prior, Utf8(line1), Utf8(line2));
  }

  // ---------------------------------------------------------------------------
  // The operations, over a disk held in place
  // ---------------------------------------------------------------------------

  /**
   * The file operations over one disk. Each returns the path it wrote, or
   * `None` where the source throws (a NullPointerException from
   * `createDirectories` for a path without a parent).
   */
  class Store {
    /** `ScentPaths.rootDir`. */
    const root: Path
    /** `DigestUtils.md5Hex`. */
    const md5: string -> string
    var disk: Disk

    constructor (tmpDir: string, user: Option<string>, md5: string -> string, disk: Disk)
      ensures root == RootDir(tmpDir, user) && this.md5 == md5 && this.disk == disk
    {
      root := RootDir(tmpDir, user);
      this.md5 := md5;
      this.disk := disk;
    }

    /** `saveTo(content: ByteArray, path, deleteIfExists)`. */
    method SaveBytesTo(content: seq<byte>, path: Path, deleteIfExists: bool) returns (r: Option<Path>)
      modifies this
      ensures r == if HasParent(path) then Some(path) else None
      ensures disk == AfterSaveBytes(old(disk), content, path, deleteIfExists)
    {
      if deleteIfExists {
        disk := disk - {path};
      }
      if !HasParent(path) {
        // Files.createDirectories(null) throws.
        return None;
      }
      var prior := if path in disk then disk[path] else [];
      disk := disk[path := Overlay(prior, content)];
      r := Some(path);
    }

    /** `saveTo(content: String, path, deleteIfExists)`, and `saveTo(any, ...)` given `any.toString()`. */
    method SaveStringTo(content: string, path: Path, deleteIfExists: bool) returns (r: Option<Path>)
      modifies this
      ensures r == if HasParent(path) then Some(path) else None
      ensures disk == AfterSaveBytes(old(disk), Utf8(content), path, deleteIfExists)
    {
      r := SaveBytesTo(Utf8(content), path, deleteIfExists);
    }

    /** `saveTo(content, relativePath, deleteIfExists)`: the path is `ScentPaths.get(relativePath)`. */
    method SaveBytesToRelative(content: seq<byte>, relativePath: string, deleteIfExists: bool) returns (r: Option<Path>)
      modifies this
      ensures var p := Get(root, relativePath, []);
              && r == (if HasParent(p) then Some(p) else None)
              && disk == AfterSaveBytes(old(disk), content, p, deleteIfExists)
    {
      r := SaveBytesTo(content, Get(root, relativePath, []), deleteIfExists);
    }

    /** `saveTo(page, path)`. */
    method SavePageTo(page: WebPage, path: Path) returns (r: Option<Path>)
      modifies this
      ensures r == if path in old(disk) || HasParent(path) then Some(path) else None
      ensures disk == AfterSavePageTo(old(disk), page, path)
    {
      if path !in disk {
        var written := SaveBytesTo(PageBytes(page), path, false);
        if written.None? {
          return None;
        }
      }
      r := Some(path);
    }

    /** `save(page, ident)`. */
    method SavePage(page: WebPage, ident: string) returns (r: Option<Path>)
      modifies this
      ensures var p := PageFilePath(root, md5, page, ident);
              && r == (if p in old(disk) || HasParent(p) then Some(p) else None)
              && disk == AfterSavePageTo(old(disk), page, p)
    {
      var filename := page.dispositionFilename.GetOr(FromUri(md5, page.baseUrl, ""));
      assert filename == PageFileName(md5, page);
      var postfix := ToLower(SubstringAfter(filename, "."));
      if |postfix| > MaxBucketLength {
        postfix := "other";
      }
      assert postfix == ExtensionBucket(filename);
      var path := Get(root, "cache", ["files", ident, postfix, filename]);
      assert path == PageFilePath(root, md5, page, ident);
      r := SavePageTo(page, path);
    }

    /** `save(doc, ident)`: written through `saveTo(String, path)`, so without truncation. */
    method SaveDocument(doc: Document, ident: string) returns (r: Option<Path>)
      modifies this
      ensures var p := DocumentPath(root, md5, doc, ident);
              && r == (if HasParent(p) then Some(p) else None)
              && disk == AfterSaveBytes(old(disk), Utf8(doc.outerHtml), p, false)
    {
      var path := Get(root, "cache", ["html", ident, FromUri(md5, doc.baseUri, ".htm")]);
      r := SaveStringTo(doc.outerHtml, path, false);
    }

    /**
     * `save(content, ident, filename)`: delete, then create a new file, so the
     * file holds exactly the content whatever was there before.
     */
    method SaveNamed(content: string, ident: string, filename: string) returns (r: Option<Path>)
      modifies this
      ensures var p := Get(root, ident, [filename]);
              && r == (if HasParent(p) then Some(p) else None)
              && disk == AfterSaveNamed(old(disk), p, Utf8(content))
    {
      var path := Get(root, ident, [filename]);
      disk := disk - {path};
      if !HasParent(path) {
        // Files.createDirectories(null) throws.
        return None;
      }
      // CREATE_NEW fails only if the file exists, and it was just deleted.
      assert path !in disk;
      disk := disk[path := Utf8(content)];
      r := Some(path);
    }

    /** `appendLog(message, path)`: I/O failures are caught, so it always returns normally. */
    method AppendLog(message: string, path: Path, now: string)
      modifies this
      ensures disk == AfterAppendLog(old(disk), path, now + " " + message)
    {
      if path == "" || path == "/" {
        // Opening the file throws an IOException, which is caught and printed.
        return;
      }
      var prior := if path in disk then disk[path] else [];
      disk := disk[path := prior + Utf8(now + " " + message)];
    }

    /** `appendLog(message, file)`: `File(file)` normalises the string as a `Path` does. */
    method AppendLogToFile(message: string, file: string, now: string)
      modifies this
      ensures disk == AfterAppendLog(old(disk), Normalize(file), now + " " + message)
    {
      AppendLog(message, Normalize(file), now);
    }
  }
}
