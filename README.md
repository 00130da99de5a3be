# ScentFiles: cache paths and write policies

A Dafny model of `ScentFiles.kt` from the Pulsar crawler. The file has two parts:

- `ScentPaths` works out where things go. The cache root is `java.io.tmpdir/scent-$USER`. `get` joins a path under that root. `fromUri` names a file by the MD5 digest of a URI. `relative` strips the root off an absolute path.
- `ScentFiles` writes to the file system:
  - it saves fetched pages (first write wins);
  - it saves rendered documents;
  - it saves named content (delete first, then create new);
  - it performs raw byte writes;
  - it appends log lines.

The model is split into four modules.

- `Text` (`text.dfy`) holds the library string operations the source calls:
  - `String.indexOf`;
  - Kotlin's `substringAfter`, which returns the receiver when the delimiter is missing;
  - Apache Commons' `StringUtils.substringAfter`, which returns "" in that case;
  - ASCII `toLowerCase`;
  - the UTF-8 encoding done by `toByteArray()`.
- `UnixPaths` (`unix_paths.dfy`) models `Paths.get(first, more...)` on a Unix file system:
  - it joins the non-empty segments with '/';
  - it collapses each run of '/' to one;
  - it drops a trailing '/'.

  `Path` is the type of strings in that normal form. `HasParent` says whether `Path.getParent()` is non-null.
- `ScentPaths` (`scent_paths.dfy`) covers the root, `get`, `fromUri` and `relative`.
- `ScentFiles` (`scent_files.dfy`) has three parts:
  - The target paths of `save(page)` and `save(doc)`, including the extension bucket.
  - One function per write policy, from the old file system to the new one. The file system is a map from path to bytes. The lemmas about these functions state each policy.
  - The class `Store`, which holds the file system in a mutable field. Its methods perform the operations step by step and are proved to end in the state the functions give. A method returns `None` where the source throws.

The digest (`DigestUtils.md5Hex`), the clock (`DateTimeUtil.now()`), `java.io.tmpdir` and `USER` are all parameters. An unset `USER` is `None`, which the root renders as "null", as Kotlin's string concatenation does.

### Behaviour the names do not suggest

- **`save(doc)` and `saveTo(bytes, path)` do not truncate.** They open the file with `CREATE` and `WRITE` but without `TRUNCATE_EXISTING`. A shorter write therefore leaves the old file's tail behind the new bytes. `AfterSaveBytes`, `SaveBytesResult`, `SaveBytesKeepsStaleTail` and `SaveDocumentOverLonger` state this. The file holds exactly the new content only in three cases: after a delete (`deleteIfExists`, or `save(content, ident, filename)`), when the old file was absent, or when it was no longer than the new content.
- **`relative` returns "", not its input, when the root does not occur.** It calls Apache's `substringAfter`, which returns "" in that case. `Relative` states this.

## Model

| member | source | states |
|---|---|---|
| Text.IndexOf | pulsar-skeleton/src/main/kotlin/fun/platonic/pulsar/common/ScentFiles.kt:46 | `indexOf`, behind both `substringAfter`s: the result is the first position where the delimiter occurs. It is `None` exactly when the delimiter occurs nowhere. |
| Text.SubstringAfter | pulsar-skeleton/src/main/kotlin/fun/platonic/pulsar/common/ScentFiles.kt:46 | Kotlin `substringAfter`. The result is a suffix of the input. When the delimiter never occurs, the result is the whole input. |
| Text.SubstringAfterOrEmpty | pulsar-skeleton/src/main/kotlin/fun/platonic/pulsar/common/ScentFiles.kt:38 | Apache `substringAfter`. The result is a suffix of the input. When the separator never occurs, the result is "". |
| Text.SubstringAfterFound | pulsar-skeleton/src/main/kotlin/fun/platonic/pulsar/common/ScentFiles.kt:38 | When the first occurrence of the delimiter is at k, both `substringAfter`s return the text from k + \|d\| on. |
| Text.ToLower | pulsar-skeleton/src/main/kotlin/fun/platonic/pulsar/common/ScentFiles.kt:46 | `toLowerCase()` keeps the length. Each character maps to its lower-case form. |
| Text.ToLowerKeepsNonLetter | pulsar-skeleton/src/main/kotlin/fun/platonic/pulsar/common/ScentFiles.kt:46 | A non-letter such as '/' is in the lower-cased string exactly when it is in the original. |
| Text.Utf8 | pulsar-skeleton/src/main/kotlin/fun/platonic/pulsar/common/ScentFiles.kt:79 | `toByteArray()` (UTF-8, also at line 56): each character takes one to four bytes. |
| Text.Utf8Concat | pulsar-skeleton/src/main/kotlin/fun/platonic/pulsar/common/ScentFiles.kt:79 | `toByteArray()` of a concatenation is the concatenation of the encodings. |
| Text.Utf8Ascii | pulsar-skeleton/src/main/kotlin/fun/platonic/pulsar/common/ScentFiles.kt:56 | An ASCII string encodes to one byte per character, each byte the character's code. |
| UnixPaths.Normalize | pulsar-skeleton/src/main/kotlin/fun/platonic/pulsar/common/ScentFiles.kt:29 | The path string has no "//" and no trailing '/' unless it is "/". A non-empty string stays non-empty. What it means is stated by the lemmas below: doubled slashes and a trailing slash make no difference. |
| UnixPaths.CollapseDoubleSlash | pulsar-skeleton/src/main/kotlin/fun/platonic/pulsar/common/ScentFiles.kt:29 | Collapsing a string with "//" somewhere gives the same as with "/" there. |
| UnixPaths.CollapseAppendSlash | pulsar-skeleton/src/main/kotlin/fun/platonic/pulsar/common/ScentFiles.kt:29 | Collapsing a string with one more '/' at the end adds at most that '/'. It adds nothing when the string already ends in '/'. |
| UnixPaths.NormalizeDoubleSlash | pulsar-skeleton/src/main/kotlin/fun/platonic/pulsar/common/ScentFiles.kt:29 | `Paths.get` treats "//" anywhere in a path like "/". |
| UnixPaths.NormalizeTrailingSlash | pulsar-skeleton/src/main/kotlin/fun/platonic/pulsar/common/ScentFiles.kt:29 | A trailing '/' on a non-empty path string makes no difference. |
| UnixPaths.NormalizeExample | pulsar-skeleton/src/main/kotlin/fun/platonic/pulsar/common/ScentFiles.kt:29 | "a//b/" becomes "a/b". |
| UnixPaths.NormalizeEndsClean | pulsar-skeleton/src/main/kotlin/fun/platonic/pulsar/common/ScentFiles.kt:29 | A non-empty string that does not end in '/' normalises to a path that segments can be appended to. |
| UnixPaths.HasParent | pulsar-skeleton/src/main/kotlin/fun/platonic/pulsar/common/ScentFiles.kt:87 | `path.parent` is non-null exactly for a path with a '/' that is not '/' alone. Such a path has a '/' before its last character. |
| UnixPaths.JoinNonEmpty | pulsar-skeleton/src/main/kotlin/fun/platonic/pulsar/common/ScentFiles.kt:29 | Joining the non-empty segments never shortens the start. |
| UnixPaths.JoinAfterNonEmpty | pulsar-skeleton/src/main/kotlin/fun/platonic/pulsar/common/ScentFiles.kt:29 | After a non-empty start, the join appends "/" + s for each non-empty segment s, in order. |
| UnixPaths.GetPath | pulsar-skeleton/src/main/kotlin/fun/platonic/pulsar/common/ScentFiles.kt:29 | `Paths.get(first, more...)` is in normal form. A non-empty first part gives a non-empty path. |
| UnixPaths.AppendNormal | pulsar-skeleton/src/main/kotlin/fun/platonic/pulsar/common/ScentFiles.kt:29 | A joinable path followed by '/' and a normal relative path is joinable again. |

| UnixPaths.NormalizeFixesNormal | pulsar-skeleton/src/main/kotlin/fun/platonic/pulsar/common/ScentFiles.kt:29 | Normalising a string that is already normal changes nothing. |
| UnixPaths.TailKeepsNormal | pulsar-skeleton/src/main/kotlin/fun/platonic/pulsar/common/ScentFiles.kt:29 | A normal start without a trailing '/', followed by "/" + s for each clean non-empty segment s, is again normal without a trailing '/'. |
| UnixPaths.GetPathRelative | pulsar-skeleton/src/main/kotlin/fun/platonic/pulsar/common/ScentFiles.kt:29 | `Paths.get(first, rel)` with a relative path in normal form, such as "dir/file.txt", is `first/rel` unchanged. |
| UnixPaths.GetPathClean | pulsar-skeleton/src/main/kotlin/fun/platonic/pulsar/common/ScentFiles.kt:29 | `Paths.get(first, more...)` with a normal first part and clean segments is the first part followed by "/" + s for each non-empty s. Empty segments vanish. |
| ScentPaths.RootDir | pulsar-skeleton/src/main/kotlin/fun/platonic/pulsar/common/ScentFiles.kt:20-22 | The cache root, `Paths.get(tmpdir, "scent-" + USER)`, is never the empty path. |
| ScentPaths.RootDirLayout | pulsar-skeleton/src/main/kotlin/fun/platonic/pulsar/common/ScentFiles.kt:20 | With a normal tmpdir and a USER without '/', the root is `tmpdir/scent-USER` ("scent-null" when USER is unset). Segments can be appended to it. |
| ScentPaths.RootDirJoinable | pulsar-skeleton/src/main/kotlin/fun/platonic/pulsar/common/ScentFiles.kt:20 | For any tmpdir, including one ending in '/', and a USER without '/', segments can be appended to the root. |
| ScentPaths.Get | pulsar-skeleton/src/main/kotlin/fun/platonic/pulsar/common/ScentFiles.kt:28-30 | `get` under a non-empty root is never the empty path. |
| ScentPaths.GetLayout | pulsar-skeleton/src/main/kotlin/fun/platonic/pulsar/common/ScentFiles.kt:28-30 | With clean segments, `get` is the root followed by "/" + s for every non-empty s, in order. The result can again be extended. |
| ScentPaths.GetHasParent | pulsar-skeleton/src/main/kotlin/fun/platonic/pulsar/common/ScentFiles.kt:87 | A path built from a clean, non-empty first segment has a parent, so `createDirectories(path.parent)` does not throw. |
| ScentPaths.GetRelative | pulsar-skeleton/src/main/kotlin/fun/platonic/pulsar/common/ScentFiles.kt:93-96 | `get(relativePath)` with a relative path in normal form is the root, '/' and that path. |
| ScentPaths.FromUri | pulsar-skeleton/src/main/kotlin/fun/platonic/pulsar/common/ScentFiles.kt:32-35 | The name is the digest followed by the suffix. An empty suffix adds nothing. |
| ScentPaths.FromUriClean | pulsar-skeleton/src/main/kotlin/fun/platonic/pulsar/common/ScentFiles.kt:33-34 | An MD5 hex name with a clean suffix contains no '/'. |
| ScentPaths.Relative | pulsar-skeleton/src/main/kotlin/fun/platonic/pulsar/common/ScentFiles.kt:37-39 | The result is a suffix of the absolute path. When the root does not occur, the result is "", not the input. |
| ScentPaths.RelativeAfterRoot | pulsar-skeleton/src/main/kotlin/fun/platonic/pulsar/common/ScentFiles.kt:37-39 | `relative(root + s) == s` for every s. |
| ScentPaths.RelativeOfGet | pulsar-skeleton/src/main/kotlin/fun/platonic/pulsar/common/ScentFiles.kt:28-39 | `relative(get(first, more...))` gives back exactly the part `get` appended below the root. |
| ScentFiles.PageFileName | pulsar-skeleton/src/main/kotlin/fun/platonic/pulsar/common/ScentFiles.kt:45 | The name is the disposition file name when the headers carry one, and otherwise the digest of the base URL. A digest of the expected shape is a 32-character name without '/' or '.'. |
| ScentFiles.ExtensionBucket | pulsar-skeleton/src/main/kotlin/fun/platonic/pulsar/common/ScentFiles.kt:46-49 | The bucket has at most 5 characters. It is either "other" or the lower-cased end of the file name. |
| ScentFiles.BucketAfterFirstDot | pulsar-skeleton/src/main/kotlin/fun/platonic/pulsar/common/ScentFiles.kt:46-49 | For a name whose first '.' is at k, the bucket is the lower-cased text after k when that is at most 5 characters, and "other" otherwise. |
| ScentFiles.BucketWithoutDot | pulsar-skeleton/src/main/kotlin/fun/platonic/pulsar/common/ScentFiles.kt:45-49 | For a name without '.', the bucket is the whole name lower-cased if it is at most 5 characters, and "other" otherwise. |
| ScentFiles.BucketClean | pulsar-skeleton/src/main/kotlin/fun/platonic/pulsar/common/ScentFiles.kt:46-50 | A name without '/' gives a bucket without '/', so the bucket is one path segment. |
| ScentFiles.BucketOfReport | pulsar-skeleton/src/main/kotlin/fun/platonic/pulsar/common/ScentFiles.kt:46-49 | "report.html" goes under "html". |
| ScentFiles.BucketOfLongSuffix | pulsar-skeleton/src/main/kotlin/fun/platonic/pulsar/common/ScentFiles.kt:47-49 | "a.verylongextension" goes under "other". |
| ScentFiles.BucketOfBareName | pulsar-skeleton/src/main/kotlin/fun/platonic/pulsar/common/ScentFiles.kt:46 | "NOTES", which has no '.', goes under "notes". |
| ScentFiles.HashNamedPageBucket | pulsar-skeleton/src/main/kotlin/fun/platonic/pulsar/common/ScentFiles.kt:45-49 | A page without a disposition file name is named by its 32-digit digest, so it always goes under "other". |
| ScentFiles.PageFilePath | pulsar-skeleton/src/main/kotlin/fun/platonic/pulsar/common/ScentFiles.kt:44-51 | Under a joinable root, with a clean ident and file name, the path `save(page)` picks has a parent directory, so its write cannot hit the null-parent failure. Its layout is stated by `PageFilePathLayout`. |
| ScentFiles.PageFilePathLayout | pulsar-skeleton/src/main/kotlin/fun/platonic/pulsar/common/ScentFiles.kt:44-50 | `save(page, ident)` targets root/cache/files/ident/bucket/name. An empty ident or an empty bucket is left out. |
| ScentFiles.PageFileRelative | pulsar-skeleton/src/main/kotlin/fun/platonic/pulsar/common/ScentFiles.kt:50 | `relative` of a page's path is /cache/files/ident/bucket/name, with empty segments left out. |
| ScentFiles.HashNamedPagePath | pulsar-skeleton/src/main/kotlin/fun/platonic/pulsar/common/ScentFiles.kt:45-50 | A page without a disposition file name is saved at root/cache/files[/ident]/other/md5(baseUrl). |
| ScentFiles.DocumentPath | pulsar-skeleton/src/main/kotlin/fun/platonic/pulsar/common/ScentFiles.kt:62-63 | Under a joinable root, with a clean ident and a digest of the expected shape, the path `save(doc)` picks has a parent directory. Its layout is stated by `DocumentPathLayout`. |
| ScentFiles.DocumentPathLayout | pulsar-skeleton/src/main/kotlin/fun/platonic/pulsar/common/ScentFiles.kt:61-62 | `save(doc, ident)` targets root/cache/html[/ident]/md5(baseUri).htm. |
| ScentFiles.Overlay | pulsar-skeleton/src/main/kotlin/fun/platonic/pulsar/common/ScentFiles.kt:88 | A write without truncation: the file becomes as long as the longer of the old file and the content. It starts with the content, and every byte beyond the content is the old file's byte. |
| ScentFiles.OverlayHidesShorter | pulsar-skeleton/src/main/kotlin/fun/platonic/pulsar/common/ScentFiles.kt:88 | A second write at least as long as the first hides the first entirely. |
| ScentFiles.AfterSaveBytes | pulsar-skeleton/src/main/kotlin/fun/platonic/pulsar/common/ScentFiles.kt:82-91 | `saveTo(bytes, path, deleteIfExists)` changes no file but `path`. With a parent, the file then starts with the content and is at least as long. |
| ScentFiles.SaveBytesResult | pulsar-skeleton/src/main/kotlin/fun/platonic/pulsar/common/ScentFiles.kt:82-91 | `saveTo(bytes)` changes only its path. The file equals the content exactly when it was deleted first, was absent, or was no longer than the content. Otherwise it is the content followed by the old tail. |
| ScentFiles.SaveBytesWithoutParent | pulsar-skeleton/src/main/kotlin/fun/platonic/pulsar/common/ScentFiles.kt:83-87 | For a path without a parent, nothing is written. The disk changes only by the deletion, if one was asked for. |
| ScentFiles.SaveBytesKeepsStaleTail | pulsar-skeleton/src/main/kotlin/fun/platonic/pulsar/common/ScentFiles.kt:83-88 | Writing [9] over [1, 2, 3] leaves [9, 2, 3]. With deleteIfExists it leaves [9]. |
| ScentFiles.PageBytes | pulsar-skeleton/src/main/kotlin/fun/platonic/pulsar/common/ScentFiles.kt:56 | The bytes written are the page content when there is one, and otherwise the seven bytes of "(empty)". |
| ScentFiles.EmptyPlaceholderBytes | pulsar-skeleton/src/main/kotlin/fun/platonic/pulsar/common/ScentFiles.kt:56 | The placeholder for a page without content is the seven bytes of "(empty)". |
| ScentFiles.AfterSavePageTo | pulsar-skeleton/src/main/kotlin/fun/platonic/pulsar/common/ScentFiles.kt:54-59 | `saveTo(page, path)` changes no file but `path`, and an existing file is left exactly as it was. |
| ScentFiles.SavePageToFirstWriteWins | pulsar-skeleton/src/main/kotlin/fun/platonic/pulsar/common/ScentFiles.kt:54-59 | An existing file is left alone. An absent file with a parent gets exactly the page bytes. |
| ScentFiles.SavePageToIdempotent | pulsar-skeleton/src/main/kotlin/fun/platonic/pulsar/common/ScentFiles.kt:54-59 | Saving any second page to the same path leaves the disk as the first save left it. |
| ScentFiles.SaveDocumentOverLonger | pulsar-skeleton/src/main/kotlin/fun/platonic/pulsar/common/ScentFiles.kt:61-64 | Re-saving a document with shorter markup leaves the old file's tail behind the new markup. The file is then not the new markup. |
| ScentFiles.AfterSaveNamed | pulsar-skeleton/src/main/kotlin/fun/platonic/pulsar/common/ScentFiles.kt:66-72 | `save(content, ident, filename)` changes no file but its path. With a parent, the file is exactly the content; without one, the file is gone. |
| ScentFiles.SaveNamedExact | pulsar-skeleton/src/main/kotlin/fun/platonic/pulsar/common/ScentFiles.kt:66-72 | A named save leaves exactly the content at its path, whatever was there, and changes no other file. Without a parent it only deletes. |
| ScentFiles.SaveNamedOverLonger | pulsar-skeleton/src/main/kotlin/fun/platonic/pulsar/common/ScentFiles.kt:66-91 | Over a longer file, a named save leaves exactly the content, while a raw write does not. |
| ScentFiles.AfterAppendLog | pulsar-skeleton/src/main/kotlin/fun/platonic/pulsar/common/ScentFiles.kt:98-106 | `appendLog` changes no file but its path. For "" or "/" nothing changes. Otherwise the file exists afterwards, holds at least the line's bytes, and starts with what it held before. |
| ScentFiles.LogLineBytes | pulsar-skeleton/src/main/kotlin/fun/platonic/pulsar/common/ScentFiles.kt:101 | A log entry's bytes are the timestamp, one space byte (0x20) and the message. |
| ScentFiles.AppendLogBytes | pulsar-skeleton/src/main/kotlin/fun/platonic/pulsar/common/ScentFiles.kt:98-106 | `appendLog` leaves the old file followed by timestamp, space and message, with no newline. Other files are unchanged. For "" or "/" the caught IOException leaves the disk as it was. |
| ScentFiles.AppendLogTwice | pulsar-skeleton/src/main/kotlin/fun/platonic/pulsar/common/ScentFiles.kt:98-115 | Two appends run together with no separator between the entries. |
| ScentFiles.Store.constructor | pulsar-skeleton/src/main/kotlin/fun/platonic/pulsar/common/ScentFiles.kt:20-22 | The store's root is `RootDir(tmpdir, USER)`. |
| ScentFiles.Store.SaveBytesTo | pulsar-skeleton/src/main/kotlin/fun/platonic/pulsar/common/ScentFiles.kt:82-91 | Ends in `AfterSaveBytes` of the old disk. Returns the path, or `None` where `createDirectories(null)` throws. |
| ScentFiles.Store.SaveStringTo | pulsar-skeleton/src/main/kotlin/fun/platonic/pulsar/common/ScentFiles.kt:74-80 | Same as `SaveBytesTo` on the string's UTF-8 bytes. |
| ScentFiles.Store.SaveBytesToRelative | pulsar-skeleton/src/main/kotlin/fun/platonic/pulsar/common/ScentFiles.kt:93-96 | Same as `SaveBytesTo` at `get(relativePath)`. |
| ScentFiles.Store.SavePageTo | pulsar-skeleton/src/main/kotlin/fun/platonic/pulsar/common/ScentFiles.kt:54-59 | Ends in `AfterSavePageTo` of the old disk. Returns the path, and fails only when the file is absent and the path has no parent. |
| ScentFiles.Store.SavePage | pulsar-skeleton/src/main/kotlin/fun/platonic/pulsar/common/ScentFiles.kt:44-52 | Computes the bucket step by step. Ends in `AfterSavePageTo` at `PageFilePath`. |
| ScentFiles.Store.SaveDocument | pulsar-skeleton/src/main/kotlin/fun/platonic/pulsar/common/ScentFiles.kt:61-64 | Ends in a non-truncating write of the markup's UTF-8 bytes at `DocumentPath`. |
| ScentFiles.Store.SaveNamed | pulsar-skeleton/src/main/kotlin/fun/platonic/pulsar/common/ScentFiles.kt:66-72 | Deletes, then creates the file new. Ends in `AfterSaveNamed` at `get(ident, filename)`. |
| ScentFiles.Store.AppendLog | pulsar-skeleton/src/main/kotlin/fun/platonic/pulsar/common/ScentFiles.kt:98-106 | Ends in `AfterAppendLog` with the line `now + " " + message`. Never fails. |
| ScentFiles.Store.AppendLogToFile | pulsar-skeleton/src/main/kotlin/fun/platonic/pulsar/common/ScentFiles.kt:108-115 | Same as `AppendLog` at the file name normalised as `java.io.File` does. |

## Left out

- `listJarDirectory` and `getJarEntries` (`ScentFiles.kt:117-156`) are not modelled. They enumerate a jar through the class loader and a `ZipInputStream`; that is foreign I/O with nothing to state beyond the stream's order.
- `DigestUtils.md5Hex` is a function parameter `md5`. Lemmas that need its output shape assume 32 lower-case hex digits (`IsMd5Hex`).
- The clock, `java.io.tmpdir` and `USER` are parameters. `defaultTaskIdent` (line 24) is not modelled, because no modelled operation reads it; each ident is passed explicitly.
- `WebPage` headers, `Document.outerHtml()` and `Any.toString()` are taken as given values.
- Directories are not modelled: the disk holds regular files only.
  - A parent path that is an existing file, or a target that is a directory, does not raise the source's IOException; the model writes anyway.
  - For `appendLog`, only the paths "" and "/" are modelled as failing to open.
  - Permission errors and a full disk are not modelled.
- `UnixPaths.Normalize` does not model the `InvalidPathException` that `Paths.get` throws for a NUL character.
- `Store.AppendLogToFile` does not model a NUL character in the file name. There `FileOutputStream` throws an IOException, which `appendLog(message, file)` catches at line 112, so no file changes; the model writes the line.
- `Text.ToLower` covers ASCII only. The source uses the JVM's locale-dependent `toLowerCase()`, which also maps non-ASCII letters.
- `ScentFiles.ExtensionBucket` counts characters (Unicode scalar values). The source compares the UTF-16 length with 5, which differs for characters outside the Basic Multilingual Plane.
- Kotlin's `String.toByteArray()` is UTF-8 by definition. `FileUtils.writeStringToFile(File, String, Boolean)` (lines 100 and 110) uses the platform's default charset instead, which the model takes to be UTF-8.
- A page's content is taken to be the bytes of `content.array()`. A `ByteBuffer` whose backing array is larger than its content is not modelled.
- Concurrency is not modelled, so neither is the race between the delete and `CREATE_NEW` in `save(content, ident, filename)`. In the model, that `CREATE_NEW` never fails.
- The stack trace printed by a caught IOException in `appendLog` is not modelled.
