# Flyve MDM packages: download ranges, upload checks and metadata scan

A Dafny model of the logic inside `PluginFlyvemdmPackage` (`inc/package.class.php`),
the GLPI record type for an uploaded Android application package (`.apk`) or
wrapped package (`.upk`). Four pieces of it are modelled:

- **Serving the file** (`sendFile`). How the `Range` request header is read. The
  pattern `bytes=\h*(\d+)?-(\d*)[\D.*]?` is matched case-insensitively and
  unanchored. The model parses it by hand and proves the parser equal to the
  pattern's declarative reading (`RangeHeader`). From that come the begin and
  end offsets, the status code, `Content-Length` and `Content-Range`, and the
  loop that prints the range in 16 KiB chunks (`Download`). The trailing
  `[\D.*]?` is optional and captures nothing, so it never changes whether the
  pattern matches or what it captures.
- **Checking an upload and naming the stored file** (`isFileUploadValid`,
  `prepareInputForAdd`, `prepareInputForUpdate`). This covers the name check,
  the stored path `flyvemdm/package/<entity>/<uniqid>_<basename>`, the download
  name, and which old file an update deletes (`Upload`, over the PHP path
  helpers in `Paths`).
- **Parsing one package** (`parseApplication`). The file extension picks the
  parser, and the parser's outcome decides how the row changes (`Scanner`).
- **The cron task** (`cronParseApplication`). It takes at most ten `pending`
  rows, parses each one, and adds one to the task's volume per success
  (`Scanner`).

The model follows the code where it departs from its evident intent:

- A Range header whose capture is exactly `"0"` is treated as if that capture
  were missing, because PHP's `empty("0")` is true.
- A suffix range `bytes=-N` with N >= 1 gives the range `0..min(N, size-1)`,
  not the last N bytes, and `bytes=-0` gives the whole file. The begin offset is never checked against the file size.
- `parseApplication` builds `$input` from `[]`. So the alias is always
  overwritten with the first label, even when the row already had an alias.
- `prepareInputForUpdate` never resets `parse_status` to `pending` when the
  file is replaced. The row keeps whatever status it had.
- A malformed APK (the parser constructor throws) leaves the row `pending`. A
  UPK whose translator yields no parser is marked `failed`.

Effects and foreign calls are parameters:

- What the file system says of the stored file is a `StoredFile` value.
- How long the peer stays connected is `closeAfter`: the number of `connection_status()` calls that see the peer connected. The loop makes that call only after the `feof` and position tests pass.
- The `uniqid()` token is a string argument.
- Whether the entity directory could be made and the file moved is a boolean.
- What the APK parser and the UPK translator report is a `Verdict` value.
- The package table is a sequence of rows in a `PackageTable` object.
- The cron task's volume counter is a field of a `CronTask` object.

## Model

| member | source | states |
|---|---|---|
| `RangeHeader.MatchAtSound` | inc/package.class.php:441 | what the hand-written matcher finds at a position is a match of the pattern: "bytes=" in any letter case, blanks, digits, '-', and digits not followed by another digit |
| `RangeHeader.MatchAtComplete` | inc/package.class.php:441 | every match of the pattern at a position is the one the matcher finds, so the matcher is exact (the pattern cannot backtrack to a second match) |
| `RangeHeader.FirstMatch` | inc/package.class.php:441 | preg_match's leftmost match: the position found matches, no earlier position does, and None means no position matches |
| `RangeHeader.ResolveRange` | inc/package.class.php:427-449 | the resolved end never exceeds size - 1, and with no header or no match the range is the whole file 0..size-1 |
| `RangeHeader.ResolveRangeRequest` | inc/package.class.php:441-447 | "bytes=a-b" gives begin a, unclamped, and end min(b, size-1), except that b = 0 is ignored and the end stays size-1 |
| `RangeHeader.ResolveOpenEnded` | inc/package.class.php:441-447 | "bytes=a-" gives begin a whatever the file size, and end size-1 |
| `RangeHeader.ResolveSuffixForm` | inc/package.class.php:441-447 | the suffix form "bytes=-n" gives 0..min(n, size-1) for n >= 1, not the last n bytes; "bytes=-0" gives the whole file |
| `RangeHeader.FirstByteRequestIsWholeFile` | inc/package.class.php:442-447 | "bytes=0-0" on a file of two or more bytes resolves to the whole file, not to the first byte |
| `RangeHeader.ResolveRangeFixedRequest` | inc/package.class.php:441-447 | with captures counted whenever non-empty, "bytes=a-b" gives exactly a..min(b, size-1) for every b |
| `Download.ContentRangeRoundTrip` | inc/package.class.php:468 | the Content-Range value "bytes begin-end/size" reads back as exactly the begin, end and size it was built from, a negative end included |
| `Download.PassesBound` | inc/package.class.php:479-489 | pass i of the loop starts at begin + 16384 i, and the loop makes pass i exactly when its test (`<` as written, `<=` corrected) holds there |
| `Download.SentUpTo` | inc/package.class.php:482 | each pass prints between 1 and 16384 bytes |
| `Download.SentUpToSpan` | inc/package.class.php:479-489 | the first n passes print the file's bytes from begin on, in order, with no gap or repeat, and never past end |
| `Download.LoopDelivery` | inc/package.class.php:479-489 | a complete run of the loop as written prints begin..end only when begin < end and end - begin is not a multiple of 16384, else it drops byte end; the corrected loop prints begin..end |
| `Download.StreamRange` | inc/package.class.php:479-490 | the loop as written, with the peer connected for closeAfter tests, prints the chunks of the first min(closeAfter, passes) passes; nothing when begin >= end; and the range with byte end dropped when end - begin is a multiple of 16384 |
| `Download.StreamRangeFixed` | inc/package.class.php:479-490 | the loop with `<=`: with the peer connected throughout, it prints exactly bytes begin..end |
| `Download.DeliveredLength` | inc/package.class.php:467-490 | the bytes printed never exceed the advertised Content-Length end - begin + 1; a full run matches it exactly when begin < end and (end - begin) % 16384 != 0, or the range is empty; nothing is printed when begin >= end |
| `Download.SendFile` | inc/package.class.php:419-493 | 404 for a missing file, 500 for an unreadable one; otherwise status 200 exactly when the range is 0..size-1 and 206 otherwise, Content-Length end - begin + 1, Content-Range exactly "bytes begin-end/size" (which reads back as those three numbers), the attachment disposition and the loop's chunks |
| `Download.SendFileFixed` | inc/package.class.php:419-493 | the same response with both corrections applied (captures of "0" count, the loop runs while currentPosition <= end): 404, 500, status 200 exactly for the whole file and 206 otherwise, Content-Length, the exact Content-Range, disposition and the corrected loop's chunks |
| `Download.WholeFileWithoutRange` | inc/package.class.php:427-490 | without a Range header the whole file is advertised, but a one-byte file arrives empty and a file of 16384 k + 1 bytes arrives without its last byte |
| `Download.RangeRequestAsWritten` | inc/package.class.php:441-490 | "bytes=a-b" with a <= b < size and b >= 1 resolves to a..b, and the body holds all b - a + 1 bytes only when a < b and b - a is not a multiple of 16384 |
| `Download.FixedDeliversRange` | inc/package.class.php:479-490 | with the corrected loop and the peer connected throughout, every range begin..end with begin <= end < size arrives whole, as content[begin..end+1] |
| `Download.LastByteDropped` | inc/package.class.php:479-490 | a 16385-byte file served whole makes one pass and receives 16384 bytes |
| `Upload.IsFileUploadValid` | inc/package.class.php:615-628 | a name is refused as missing exactly when it is unset, "" or "0"; an accepted name has the extension apk or upk |
| `Upload.UploadValidIff` | inc/package.class.php:615-628 | a name is accepted exactly when it is truthy and, trailing slashes aside, ends with ".apk" or ".upk", letter case included |
| `Upload.OtherExtensionRefused` | inc/package.class.php:622-626 | a name whose extension after the last '.' is anything other than apk or upk (say "APK") is refused for its extension |
| `Upload.StoredBasename` | inc/package.class.php:193 | the basename of the stored path is the uniqid token, '_' and the upload's basename |
| `Upload.StoredExtension` | inc/package.class.php:193 | a token without '.' or '/' gives a stored path with the same extension as the upload |
| `Upload.ValidUploadStoredAsPackage` | inc/package.class.php:184-193 | an accepted upload is stored under a path whose extension is apk or upk |
| `Upload.WithoutUserName` | inc/package.class.php:174-176 | outside the cron task the package name is dropped from the input; nothing else in it changes |
| `Upload.PrepareInputForAdd` | inc/package.class.php:172-210 | the add is refused exactly when there is no upload, its name fails the check, or the move fails; otherwise the input gets the entity (input's, else the session's), the stored path and the upload's basename as download name; package_name is dropped outside cron and every other key passes through unchanged |
| `Upload.AddDownloadNameIsStoredSuffix` | inc/package.class.php:193-197 | after an add, the stored file's basename is the token, '_' and the download name |
| `Upload.PrepareInputForUpdate` | inc/package.class.php:216-249 | without an upload the input passes through; with one, the update is refused exactly when the name check or the move fails; otherwise the file is stored under the row's own entity, the input gets the stored path and download name, package_name is dropped outside cron and every other key passes through unchanged, and the old file is unlinked exactly when its stored name differs from the new file's PATHINFO_FILENAME |
| `Upload.UpdateKeepsParseStatus` | inc/package.class.php:216-249 | replacing the file never puts the row back to 'pending': it keeps its status unless the caller's input names one |
| `Upload.ReplacedFileAlwaysUnlinked` | inc/package.class.php:233-237 | a stored filename with a directory in it never equals a PATHINFO_FILENAME, so the old file is always deleted |
| `Upload.UpdateDownloadNameCarriesToken` | inc/package.class.php:229-234 | unlike an add, an update sets the download name to the stored file's basename, token included |
| `Records.ApplyInput` | inc/package.class.php:565-588 | an update writes, column by column, the value of each key present in its input, keeps the stored value of each absent key, and keeps the id |
| `Scanner.ManifestInput` | inc/package.class.php:574-587 | a successful parse writes 'parsed' and the first label as alias, and no file name, download name or entity |
| `Scanner.PackageTable.ParseApplication` | inc/package.class.php:551-589 | dispatches on the file extension (apk: the parser, which may throw and skip the row; upk: the translator, whose missing parser marks the row failed; anything else: skip); returns true exactly when the manifest was stored; the row at the index becomes the step's result and no other row changes |
| `Scanner.PackageTable.StoreManifest` | inc/package.class.php:574-588 | the input built from a fresh array always carries the first label as alias, 'parsed', name, versions and icon, and is saved to that row alone |
| `Scanner.UnsupportedExtensionSkipped` | inc/package.class.php:571-573 | a file whose extension is neither apk nor upk is skipped |
| `Scanner.ParserFailureSteps` | inc/package.class.php:554-570 | an APK the parser throws on is skipped; a UPK without a parser is marked failed |
| `Scanner.StoreIff` | inc/package.class.php:553-588 | a manifest is stored exactly for an APK the parser opens or a UPK the translator has a parser for |
| `Scanner.SkipAndFailEffects` | inc/package.class.php:554-573 | a skipped row is left as it was; a failed one changes only its status |
| `Scanner.StoreSetsParsedAndAlias` | inc/package.class.php:574-588 | storing a manifest writes name, version, version code and icon, sets 'parsed', and replaces the alias by the first label whatever alias the row had |
| `Scanner.NoTransitionToPending` | inc/package.class.php:551-589 | no parse puts a row back to 'pending'; a row still pending afterwards was skipped |
| `Scanner.UploadedPackageDispatched` | inc/package.class.php:552-553 | a package added through an accepted upload lies in a file whose extension is apk or upk |
| `Scanner.PendingRows` | inc/package.class.php:524-531 | exactly the positions of the 'pending' rows, in increasing order |
| `Scanner.CronParseApplication` | inc/package.class.php:520-544 | always returns 1; the table becomes the batch's steps applied in order; the volume grows by the number of successful parses |
| `Scanner.ParseRow` | inc/package.class.php:535-537 | a row reloaded mid-run still has its file, so it takes the step its file called for at the start of the run |
| `Scanner.RunBatchKeepsFiles` | inc/package.class.php:551-589 | no row's stored filename changes during a run |
| `Scanner.BatchIsFirstTenPending` | inc/package.class.php:524-533 | the batch holds at most ten rows, all pending, in table order; a pending row left out comes after all of them and then the batch is full |
| `Scanner.RunBatchAt` | inc/package.class.php:534-540 | a run changes exactly the rows of the batch, each as one parse of its original contents |
| `Scanner.VolumeBound` | inc/package.class.php:534-540 | one run adds at most ten to the volume |
| `Scanner.CronProgress` | inc/package.class.php:520-544 | rows outside the batch are untouched; a batch row is still pending afterwards exactly when its file was skipped |
| `Scanner.CronStarves` | inc/package.class.php:520-560 | when none of the batch's rows can be parsed or marked failed, a run changes nothing and the next run picks the same batch, so the pending rows behind it are never reached |

## Left out

- File system effects: `file_exists`, `fopen`, `fseek`, `rename`, `unlink`, `mkdir` and `createEntityDirectory` are represented by their outcomes (`StoredFile`, the `moved` flag, the `unlink` path in the update plan). `fseek` to an offset of zero or more does not fail on a regular file, so its 500 branch is not modelled.
- Download.StreamRange: an `fread` failure in the middle of the loop (the late 500 status line) is not modelled. `feof` is modelled, but it never fires inside the loop, because reads stop before end + 1 <= size.
- HTTP output: `header()`, `print`, `flush`, `set_time_limit` and `exit(0)` are not modelled. The response is returned as a value. `connection_status()` becomes the count `closeAfter`. The cache, type and transfer-encoding headers and `Accept-Ranges: bytes` and `Connection: close` (lines 466 and 470) are constants and are left out. Last-Modified is left out because it comes from foreign calls (`date('r', filemtime(...))`).
- Foreign libraries: the APK parser, `PluginFlyvemdmUpkparser`, `stream_get_contents` and `base64_encode` are represented by a `Verdict`. The icon is a manifest field that is already encoded. An exception thrown by the UPK translator's constructor is not modelled, because the code has no handler for it.
- Scanner.PackageTable.ParseApplication: once a parser is obtained, the library calls at lines 575-581 (`getManifest`, `getApplication`, `getResources`, `getStream`, `stream_get_contents`) are assumed not to throw; a `Verdict` that yields a parser always yields a `Manifest`. Neither `parseApplication` nor the cron loop at lines 534-540 catches an exception, so a throw there would end the cron run before the remaining batch rows, `cronParseApplication` would not return 1, and the row would stay `pending` for the next run. `Scanner.CronParseApplication`, `Scanner.RunBatchAt` and `Scanner.CronProgress` hold only for runs in which no such call throws.
- Scanner.FirstLabel: a manifest with no label gives the alias "". PHP would store null from an undefined index.
- `uniqid()` is a token parameter. `$_SESSION['glpiactive_entity']` is the `sessionEntity` parameter. `Session::isCron()` is the `isCron` parameter.
- `prepareFileUpload` (the `$_POST`/`$_FILES` plumbing) is left out. Its result is the `PreparedFile` parameter.
- Session messages and `Toolbox::logInFile` are not modelled.
- Forms, tabs, search options, `getSpecificValueToDisplay`, `post_getFromDB`/`addExtraFileInfo` (filesize and MIME type refresh), Orion reports, `post_updateItem`, `pre_deleteItem`, `post_purgeItem` and `hook_entity_purge` are framework glue and are not part of this model.
- The database query layer: the order of the rows `$DB->request` returns is not specified. The model uses table order, and methods address a row by its position in that order, standing for the framework's lookup by `id`.
- Scanner.PackageTable.Update: GLPI's `update()` is assumed to succeed. In the source it can return false (a unicity check, a row deleted meanwhile, a read-only database), and `parseApplication` returns that result, which the cron volume counts. So Scanner.PackageTable.ParseApplication, and through it the volume, may report success where the real save failed.
- Scanner.PackageTable.Update: GLPI's `update()` also runs this class's own `prepareInputForUpdate` hook on the input. The model applies the input directly. That matches the source only because the cron context has `isCron` true and no upload, so the hook passes the input through unchanged (`Upload.PrepareInputForUpdate` with no prepared file).
- PHP `intval` saturates at the platform's integer maximum on very long digit strings. Integers here are unbounded.

## Findings

| source | as written | input that shows it | evidently intended | confidence | as-written member | corrected member |
|---|---|---|---|---|---|---|
| inc/package.class.php:479 | the loop runs while `$currentPosition < $end`, so a range whose length is one more than a multiple of 16384 loses its last byte, and a one-byte range prints nothing, although Content-Length announces end - begin + 1 bytes | a file of 16385 bytes with no Range header: Content-Length 16385, one pass of 16384 bytes | loop while `$currentPosition <= $end`, so that the whole range begin..end is sent | high, not executed | `Download.LastByteDropped` | `Download.StreamRangeFixed` |
| inc/package.class.php:442-447 | `!empty($matches[n])` treats the capture "0" as absent, so a request for the first byte only is served as the whole file | `Range: bytes=0-0` on a file of 100 bytes resolves to 0..99 with status 200 | test for a non-empty capture (`$matches[n] !== ''`), so that "bytes=0-0" resolves to 0..0 | high, not executed | `RangeHeader.FirstByteRequestIsWholeFile` | `RangeHeader.ResolveRangeFixedRequest` |
