# Self-hosted drive: a verified model of the request handlers

This project models the server side of a small self-hosted file drive. Three PHP scripts make up that side:

- `explorer.php` is the file browser. It serves files with HTTP byte ranges, accepts chunked uploads, creates, renames and deletes folders and files, lists a folder, computes the storage meter and makes share links.
- `register.php` adds a user to the username → password-hash registry (users.json) and creates the user's `Home` directory.
- `authenticate.php` logs a user in against that registry.

Every user works inside a sandbox, `/var/www/html/webdav/users/<name>/Home`. Most of what is proved here is about whether the handlers actually stay inside it.

The filesystem is one tree value, `Tree.Node = File(bytes) | Dir(map name → Node)`, rooted at "/". A path is a sequence of segments. `realpath` is modelled as lexical normalisation: the string is split on '/', "" and "." are dropped, and ".." pops a segment but stops at the root. The normalised path is then looked up in the tree (`Paths.Realpath`). The PHP prefix test `strpos($p, $base) === 0` is modelled literally, as a string prefix test on the encoded paths (`Abs(base) <= Abs(p)`).

The handlers that change the tree are methods of the class `Explorer.Explorer`, whose field `fs` is the tree. The session fields they read and write live in `Sessions.Session`. The registry and the share table are the classes `Users.UserRegistry` and `Shares.ShareRegistry`. Each method is specified against pure functions, and the source's promises are proved as lemmas about those functions:

- `Upload.UploadOne` and `Upload.UploadAll` specify the upload handler.
- `Serve.Decide`, `Serve.Head` and `Serve.Sent` specify range serving.
- `Explorer.Move` specifies the two renames.
- `Tree.RemoveAt` specifies delete.
- `Storage.Mkdir` and `Storage.MkdirAll` specify directory creation.

These are the parameters that stand for what the scripts get from outside:

- The result of `fopen`, of `chown`/`chgrp` and of each write of users.json is a boolean parameter.
- `connection_aborted()` is a sequence of answers, one per loop test.
- A failing read or write in the upload copy loop is the number of the chunk it happens at.
- `random_bytes(16)` is a 16-byte parameter and `time()` an integer.
- `mime_content_type` is an optional string.
- `password_hash` and `password_verify` are function parameters. The only thing assumed of them is that a password verifies against its own hash.

## Model

| member | source | states |
|---|---|---|
| Paths.Realpath | explorer.php:48 | A path `realpath` returns always exists in the tree |
| Paths.BaseDir | explorer.php:35-42 | The sandbox root, when it resolves, exists, is canonical and ends in the segment "Home" |
| Paths.RealpathUnder | explorer.php:48 | Resolving base + '/' + a relative name is resolving the name's pieces starting from the base |
| Paths.ServeResolve | explorer.php:44-55 | A file the serve lookup accepts exists and has the sandbox path as a plain string prefix |
| Paths.ServeResolveReach | explorer.php:44-55 | Everything the serve lookup accepts is either under the sandbox or a sibling of it whose name starts with the sandbox's last segment |
| Paths.ServeResolveEscapes | explorer.php:44-55 | "../Home2/f" is accepted and reaches a file outside the sandbox, because ".." is not stripped and no '/' is required after the base |
| Paths.ServeResolveStrict | explorer.php:44-55 | The corrected lookup, which requires the base to be followed by '/' or the end of the string, only returns existing paths |
| Paths.ServeResolveStrictConfined | explorer.php:44-55 | Every path the corrected lookup accepts lies inside the sandbox |
| Paths.StrictPrefixInside | explorer.php:44-55 | A canonical path whose string equals the base's, or starts with the base's followed by '/', lies inside the base |
| Paths.PrefixReach | explorer.php:50 | What the string-prefix test admits, segment by segment: the base's parent path, then a last segment that extends the base's last segment |
| Text.TrimEnds | explorer.php:179 | A trimmed string starts and ends with none of the stripped characters |
| Text.TrimSubstring | explorer.php:179 | What `trim` keeps is one contiguous piece of its input, starting after the stripped head |
| Text.TrimLeftSuffix | explorer.php:179 | `ltrim` keeps a suffix that starts with no stripped character and removes only stripped characters |
| Text.TrimRightPrefix | explorer.php:243 | `rtrim` keeps a prefix that ends with no stripped character and removes only stripped characters |
| Paths.FolderRelClean | explorer.php:179 | After the single `..` removal pass and the trim of '/', the relative folder contains no ".." and starts and ends with no '/' |
| Paths.FoundBelowBase | explorer.php:180-188 | Without ".." pieces, a folder that resolves lies below the base and passes the prefix test |
| Paths.ResolveFolderFallback | explorer.php:179-188 | The folder falls back to (base, "Home") exactly when `realpath` fails; otherwise it is the resolved path with the cleaned relative name |
| Paths.ResolveFolderConfined | explorer.php:179-188 | The current folder always exists and lies inside the sandbox, and its relative name is clean |
| Paths.ReachAnywhere | explorer.php:244 | A name made of enough ".." pieces followed by a target path, joined to the current folder, normalises to that target |
| Explorer.ResolveRelValid | explorer.php:180-188 | The current folder is always a canonical path |
| Explorer.Explorer.Enter | explorer.php:136-188 | Not logged in: redirect to the login page. A missing Home is created with `mkdir -p`, and a failed creation gives 500 "Server configuration error.". No folder parameter: redirect to `?folder=Home`. Otherwise the page is ready, and its context is the sandbox and the resolved current folder, which exists and lies inside it |
| Storage.DirSize | explorer.php:193-206 | getDirSize returns the sum of the sizes of all files at any depth, skipping the entries "." and ".." |
| Storage.Mkdir | explorer.php:221-224 | Plain `mkdir` succeeds exactly for an absent path whose parent is a directory, and leaves an empty directory there |
| Storage.MkdirFrame | explorer.php:224 | `mkdir` changes nothing apart from the new path |
| Storage.MkdirAllSpec | explorer.php:150-151 | `mkdir -p` leaves a directory at the path; it fails exactly when some prefix of the path is a file |
| Storage.MkdirAllFrame | explorer.php:151 | `mkdir -p` changes nothing at paths apart from the one it creates |
| Explorer.Explorer.CreateFolder | explorer.php:217-234 | A trimmed empty name or an existing target changes nothing. Otherwise the folder is created, or "Failed to create folder." is recorded and the tree is unchanged |
| Explorer.Explorer.MakeFolder | explorer.php:221-230 | An existing target changes nothing. Otherwise `mkdir` leaves a new empty directory at the target, or "Failed to create folder." is recorded and the tree is unchanged |
| Explorer.Explorer.DeleteRecursive | explorer.php:333-345 | The new tree is the old tree with the directory and everything below it removed |
| Tree.LookupRemoveInside | explorer.php:333-345 | After the removal nothing is left at or below the removed path |
| Tree.LookupRemoveApart | explorer.php:333-345 | The removal changes nothing at paths apart from the removed one |
| Explorer.Explorer.Delete | explorer.php:312-328 | The resolved item is removed, with its content, exactly when it exists and has the current folder's path as a string prefix; otherwise nothing changes |
| Explorer.DeleteDotRemovesCurrent | explorer.php:315-317 | Deleting "." resolves to the current folder itself, which passes the prefix test |
| Explorer.DeleteReach | explorer.php:315-317 | Delete only reaches the current folder, what is below it, or a sibling whose name extends the folder's name |
| Explorer.MoveSpec | explorer.php:356 | After a rename the whole subtree is found under the new name and nothing is left under the old one |
| Explorer.MoveFrame | explorer.php:383 | A rename changes nothing at paths apart from both names |
| Explorer.Explorer.RenameFolder | explorer.php:350-365 | A folder moves only when the old name resolves to a directory and the new name does not exist; the old name is not checked against the current folder |
| Explorer.Explorer.RenameFile | explorer.php:370-391 | A file moves only when the lower-cased extensions of the two names agree and the new name is free. On a mismatch the extension error is recorded and nothing moves |
| Explorer.NamesReachAnywhere | explorer.php:352-356 | Rename and upload names climbing out with ".." reach any existing path, because neither handler applies a prefix test |
| Names.LastIndexOf | explorer.php:376-377 | The last occurrence of a character, or none |
| Names.Basename | explorer.php:243 | `basename` has no '/', and a name without '/' is its own base name |
| Names.BasenameOfPath | explorer.php:243 | The base name of a directory path, '/', and a non-empty name without '/' is that name |
| Names.Extension | explorer.php:376-377 | The extension holds no '.' and no '/' |
| Names.ExtensionOfDotted | explorer.php:376-377 | The extension of stem.ext is ext |
| Names.ExtensionUndotted | explorer.php:376-377 | A name without a dot has the empty extension |
| Names.IconClassAgrees | explorer.php:431-450 | getIconClass gives the image icon exactly for isImage names and the video icon exactly for isVideo names; no name is both. The five icons are the values of `Names.Icon`, written out by `Names.CssClass` |
| Names.ImageNotVideo | explorer.php:434-435 | The image list and the video list share no extension |
| Names.IsImageIgnoresCase | explorer.php:443-446 | The extension is lower-cased: a name whose extension lower-cases to an image extension is an image and gets the image icon |
| Names.UpperPngIsImage | explorer.php:443-446 | "x.PNG" is an image and gets the image icon |
| Names.ParentRelSplit | explorer.php:422-424 | The parent link's relative folder plus '/' plus the last piece gives back the current relative folder, or is "" when there is no '/' |
| Explorer.BackLinkLeadsUp | explorer.php:420-426 | Below the sandbox root the "Back" link exists, and a request for its folder resolves to the parent directory of the current one, unless the current folder was reached through a final "." piece |
| Explorer.ParentPieces | explorer.php:422-424 | A clean relative folder resolves to where its parent link's folder resolves, plus its last piece |
| Paths.FolderRelResolves | explorer.php:179 | For a folder without "..", the `..` removal and the trim of '/' do not change where it resolves |
| Listing.StrLeqTotalOrder | explorer.php:412-413 | The comparison the listing sorts by is a total order |
| Listing.Sort | explorer.php:412-413 | `sort` returns an ordered permutation of its input |
| Listing.Partition | explorer.php:396-411 | Each entry of the folder lands once in the folder list if it is a directory, otherwise once in the file list |
| Listing.ListDir | explorer.php:396-413 | The two lists hold exactly the directory names and the file names, each sorted ascending; a current folder that is not a directory lists nothing |
| Listing.OrderedDistinct | explorer.php:412-413 | Both lists are strictly increasing, so no name appears twice |
| Serve.MimeTable | explorer.php:60-72 | Every table entry is a non-empty MIME type |
| Serve.MimeTableKnown | explorer.php:60-72 | The table has a type exactly for the image extensions, the video extensions and "pdf" |
| Serve.ImagesServedAsImages | explorer.php:60-74 | A name the listing previews as an image is served with an "image/" Content-Type, whatever the sniffer says |
| Serve.VideosServedAsVideos | explorer.php:60-74 | A name the listing previews as a video is served with a "video/" Content-Type, whatever the sniffer says |
| Serve.MimeTypeFallbackUnreachable | explorer.php:74 | For an unknown extension and a failed sniff, the type is "", not application/octet-stream |
| Serve.MimeTypeIntended | explorer.php:74 | The corrected choice is never empty, and it falls back to application/octet-stream |
| Serve.FindMatch | explorer.php:94 | The unanchored `bytes=(\d+)-(\d*)` match: a non-empty digit run, then a possibly empty one |
| Serve.MatchBoundsOccurs | explorer.php:94 | The captures occur in the text as matched: the first digits, '-', then the longest run of digits after it |
| Serve.MatchHereOccurs | explorer.php:94 | A match at a position spells out "bytes=", the first capture, '-', the second capture there |
| Serve.FindMatchLeftmost | explorer.php:94 | `preg_match` returns the match at the leftmost matching position, and no match exactly when no position matches |
| Serve.Decide | explorer.php:92-109 | No Range header means the whole file; a partial answer always has start <= end < size |
| Serve.DecideExplicit | explorer.php:94-109 | "bytes=s-e" is served as 206 exactly when s <= e < size, and is otherwise 416 |
| Serve.DecideExplicitThen | explorer.php:94-109 | The same 206-or-416 decision for "bytes=s-e" followed by any text that does not start with a digit |
| Serve.DecideFirstRangeOnly | explorer.php:94-109 | In "bytes=s-e,rest" everything after the first range is ignored |
| Serve.DecideOpenEnded | explorer.php:96 | "bytes=s-" reaches the last byte, or gives 416 when s >= size |
| Serve.DecideSuffixRefused | explorer.php:94-124 | The suffix form "bytes=-n" never matches and gets 416 |
| Serve.NoMatchWithoutB | explorer.php:119-124 | A header without the letter b is malformed and gets 416 |
| Serve.Head | explorer.php:76-109 | 200 with the file size and no Content-Range, or 206 with Content-Length end-start+1 and Content-Range "bytes start-end/size", or 416 with "bytes */size"; the Content-Type is the chosen type |
| Serve.FirstAbort | explorer.php:113-127 | The first loop test that sees an abort, and no abort before it |
| Serve.Read | explorer.php:115-128 | `fread` returns the next bytes and at most as many as asked for; a short read ends at end of file |
| Serve.StreamRange | explorer.php:111-118 | The range loop sends exactly bytes start onwards, up to the amount sent before the first abort |
| Serve.StreamWhole | explorer.php:126-131 | The whole-file loop sends exactly the file's first bytes, up to the amount sent before the first abort |
| Serve.SentNoAbort | explorer.php:113-130 | Without an abort the loops send everything |
| Serve.SentAbort | explorer.php:113-130 | An abort at test n stops the loop after n pieces of 8192 bytes |
| Serve.ContentLengthMatchesBody | explorer.php:78-118 | Without an abort the body has exactly the announced Content-Length: the whole file, or bytes start..end |
| Serve.ServeFile | explorer.php:76-131 | A failed `fopen` gives 500 "Unable to serve file."; otherwise status and headers come from the range decision and the body from streaming |
| Serve.ServeTarget | explorer.php:35-55 | A file that can be served exists and passed the prefix test against an existing sandbox |
| Serve.ServeRequest | explorer.php:28-131 | The four outcomes in the source's order: 302 to the login page, 500 for a missing sandbox, 404 "File not found.", then the file response |
| Serve.ServeStreamsOnlyPrefixedFiles | explorer.php:44-55 | A served path is in the sandbox or in a sibling whose name extends "Home" |
| Upload.ErrorMessageTable | explorer.php:291-300 | The error match: "Unknown upload error" exactly for the codes that are not in the table; different known codes give different messages |
| Upload.UploadAll | explorer.php:240-304 | Every entry is handled in turn, and there is one outcome per entry |
| Upload.RejectedEntryChangesNothing | explorer.php:241-303 | An entry with an upload error leaves the tree as it was and reports "Upload error for <name>: <message>" |
| Upload.FirstChunkTruncates | explorer.php:248 | With chunk_start 0 the destination holds exactly the uploaded chunk |
| Upload.AppendIgnoresOffset | explorer.php:248-265 | A later chunk is appended after what is there, whatever offset it names |
| Upload.RetriedChunkDuplicates | explorer.php:248-265 | Sending the same second chunk twice stores it twice |
| Upload.WriteChunkAt | explorer.php:263-265 | The corrected write puts the chunk at its offset and keeps the bytes before it |
| Upload.WriteChunkAtRetry | explorer.php:263-265 | With positioned writes, chunk a then chunk b gives a+b, and a retried chunk changes nothing |
| Upload.FailedCopyUnlinks | explorer.php:267-276 | A read or write failure during the copy removes the destination and reports "Failed to write chunk for <name>" |
| Upload.CompletionReported | explorer.php:287-289 | The outcome records completion exactly when the stored file is at least as long as the declared total |
| Upload.UploadOneFrame | explorer.php:244-289 | An entry changes nothing at paths apart from its destination |
| Upload.UploadAnywhere | explorer.php:243-244 | The `file_name` field, which has no prefix test, can name any path in the tree |
| Upload.LastErrorIsLastFailure | explorer.php:251-302 | The session keeps the message of the last failing entry |
| Upload.LastErrorNoFailure | explorer.php:240-304 | With no failing entry the session's error stays what it was |
| Explorer.Explorer.UploadEntry | explorer.php:241-303 | The 'wb' or 'ab' open, the 8192-byte copy loop and the unlink on failure give exactly the tree and outcome of UploadOne |
| Explorer.Explorer.CopyChunks | explorer.php:262-276 | The 8192-byte copy loop either appends the whole temporary file to what the open left, or unlinks the destination; it fails exactly when a failing chunk is reached before the end of the file |
| Explorer.Explorer.UploadFiles | explorer.php:239-307 | The foreach over entries gives the tree and outcomes of UploadAll, and the session's error is the last failure's message |
| Shares.Hex | explorer.php:456 | `bin2hex` gives two hex digits per byte |
| Shares.HexRoundTrip | explorer.php:456 | The token gives back the random bytes it was made from |
| Shares.HexInjective | explorer.php:456 | Different random bytes give different tokens |
| Shares.ShareRegistry.GenerateShareLink | explorer.php:455-474 | Exactly one record is added, under the 32-digit token, with file currentRel/fileName and expiry now+86400. Other tokens are unchanged. An unreadable or missing table counts as empty. The link ends in the token |
| Shares.LinkFindsRecord | explorer.php:470-473 | The token in the link finds the new record |
| Users.Initialized | register.php:7-10 | A missing users.json is created empty; it decodes to the same map |
| Users.LoginError | authenticate.php:10-28 | The failures in order: a PHP-empty name or password gives the required-fields message; with both present, a missing users.json gives "No users registered yet."; any other failure is "Invalid username or password."; none exactly when the login is accepted |
| Users.UnknownAndWrongAlike | authenticate.php:22-28 | An unknown user and a wrong password get the same message |
| Users.RollbackRestores | register.php:36-44 | Unsetting the just-added key gives back the map from before the request |
| Users.RegisterThenAuthenticate | authenticate.php:22-28 | A successful registration stores `hash(p)` for the trimmed name, and authenticate then accepts the same fields, given verify(p, hash(p)) |
| Users.UserRegistry.Register | register.php:7-53 | A non-POST request changes nothing. Empty fields, an existing name or a failed save each leave the registry and tree unchanged with their own message. On success the registry gains exactly name ↦ hash(password). If the Home directory fails, "Failed to create user directory." is recorded and, when the rollback write succeeds, the registry is as before |
| Users.UserRegistry.CreateHome | register.php:36-47 | An existing Home directory, or one `mkdir -p` creates with a successful chown/chgrp, gives the success message and keeps the new entry. Otherwise "Failed to create user directory." is recorded, and after a successful rollback write the registry is the map from before the request |
| Users.UserRegistry.Authenticate | authenticate.php:6-41 | A non-POST request logs nobody in. An accepted login sets `loggedin` and the trimmed username and redirects to `explorer.php?folder=Home`. Any other request records the failure message and leaves the login fields alone |

## Left out

- HTML, CSS, client JavaScript and index.php: this is presentation and client-side event handling.
- Session start, `session_regenerate_id`, `header()` emission, output buffering and `flush`: status codes and header values are returned as data instead.
- Debug logging. explorer.php:5-18 logs through `log_debug` to /var/www/html/selfhostedgdrive/debug.log, which is switched off (`DEBUG` is false), but it creates that file on every request where it is missing. authenticate.php:25 and 33-35 append to /tmp/auth_debug.log. Neither file is modelled.
- Explorer.BackLinkLeadsUp: a folder reached through a final "." piece (`?folder=a/.`) is left out; its "Back" link names the folder itself (`a`), so it does not lead up.
- Upload.CompletionReported: the source only passes completion to the disabled `log_debug` (explorer.php:287-289), so nothing observable depends on it; the model keeps it in the outcome.
- The storage percentage and the GB figures are floating point and are not modelled. `Storage.TotalStorage` keeps the 10 GiB constant and `Storage.DirSize` the used bytes.
- Symlinks are not resolved, and permissions, modes, chown/chgrp/chmod and races between checks and uses are not modelled. `realpath` is purely lexical over the tree.
- JSON encoding and decoding of users.json and shares.json. A file is either missing, unreadable or a map.
- `urlencode`/`urldecode`: parameters arrive decoded.
- Redirect URLs after POST handlers: they carry `$currentRel` and change no state.
- The `(int)` casts of `chunk_start` and `total_size`: the form fields arrive as integers.
- Explorer.Explorer.Enter: the 500 at explorer.php:160-165 cannot happen in the model, because the Home directory exists at that point and lexical `realpath` of an existing directory always succeeds.
- Explorer.Explorer.Enter: `chown`/`chgrp` of a new Home (explorer.php:157-158) are ignored, as the source ignores their results.
- Listing.Sort: compares names byte by byte. PHP `sort()` compares numeric strings as numbers, which is not a total order, so the model does not follow it.
- Serve.ServeRequest: a request that resolves to a directory is answered as a failed `fopen` (500 "Unable to serve file."). Reading a directory stream is not modelled.
- Serve.ServeRequest: `filesize` and the bytes read are taken from the same tree, so a file that changes while it is being served is not modelled.
- Upload.UploadOne: the destination lives in the same tree as the rest of the filesystem rather than in a flat map of the current folder, because `file_name` can name a path outside that folder (`Upload.UploadAnywhere`).
- Upload.UploadOne: a failed `fwrite` and a failed `fread` are one event, "the copy fails at chunk n". A write that stores part of a chunk is not modelled.
- Users.UserRegistry.Register: the creation of a missing users.json at register.php:7-10 is taken to succeed. Password and username are otherwise arbitrary strings, and `password_hash` is a function parameter.
- Shares.ShareRegistry.GenerateShareLink: the first write of an empty shares.json, and the final write, are taken to succeed. A failed write is not modelled.

## Findings

| source | as written | input that shows it | evidently intended | confidence | as-written member | corrected member |
|---|---|---|---|---|---|---|
| explorer.php:44-55 | The serve lookup accepts any path that has the sandbox path as a string prefix, and does not remove "..". | `file=../Home2/secret.txt` when a directory `Home2` beside the user's `Home` holds `secret.txt` | Accept only the sandbox itself or paths below it (base followed by '/' or the end) | high, not executed | Paths.ServeResolveEscapes | Paths.ServeResolveStrictConfined |
| explorer.php:248-265 | Every chunk after the first is opened in append mode, where the `fseek` has no effect on writes. | Chunk 0 = "ab", then chunk 2 = "cd" sent twice (a client retry) gives "abcdcd" | Write each chunk at its `chunk_start` offset, so a retry is harmless | high, not executed | Upload.RetriedChunkDuplicates | Upload.WriteChunkAtRetry |
| explorer.php:74 | `mime_content_type` returns false on failure, which `??` does not replace, so the octet-stream fallback is dead. | A file named `data.xyz` whose type cannot be sniffed gets an empty Content-Type | Fall back to application/octet-stream | medium, not executed | Serve.MimeTypeFallbackUnreachable | Serve.MimeTypeIntended |
