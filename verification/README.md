# sprd Rapid client: a Dafny model of its core

sprd downloads Spring RTS game content over the Rapid protocol. A Rapid
mirror publishes three things:

- a **registry**: gzipped text with one `name,url` line per repository;
- one **version list** per repository: gzipped text with one
  `fullname,md5,alias,something` line per package;
- binary **descriptor** (`.sdp`) files. Each descriptor lists the pool
  blobs of one package as `[len][name][md5:16][crc32:4][size:4 LE]`
  records.

Blobs are stored under `pool/<2 hex digits>/<30 hex digits>.gz`. To fetch
the missing blobs, the client posts a bitmap of them to the mirror's
streamer. The streamer answers with one `[u32 BE length][payload]` frame
per missing blob.

This project models, as pure functions over immutable data:

- the three decoders;
- content-store path derivation;
- the missing-file filter and the download bitmap;
- the buffering frame reader of the pool downloader;
- the older chunk-driven download state machine;
- the package validity check;
- the two five-attempt retry loops (`fix` and `meta download-repo`);
- local metadata lookup;
- the cross-repository search of `download_sdp`.

The filesystem is a map from paths to file contents (`Env.Disk`).
Decompression, UTF-8 decoding of whole files and MD5 come as
uninterpreted functions in `Env.Codecs`. Downloads, validation by full
name, and registry/repository fetches are injected as functions on disks.
Every point where the Rust code panics (`unwrap`, `expect`, `assert!`, an
out-of-range slice or index) is modelled as the failure `Panic(reason)`.

Modules, one per source component:

- `Bytes`, `Hex`, `Seqs`, `Text`, `Utf8`, `Wrappers`: supporting definitions.
- `Types` follows `src/rapid/types.rs` and `src/event.rs`. The record
  keeps the 16 digest bytes (`md5_bin`, read at `src/validation.rs:44`)
  and derives the 32-character hex text from them.
- `Env`, `Parsing`, `RapidStore`, `PoolDownloader`, `LegacyDownload`,
  `Validation`, `Fix`, `MetaDownloadRepo`, `MetadataLocal`, `DownloadSdp`.

Two details of the code that the model keeps:

- The bitmap has `n/8 + 1` bytes, so a multiple of 8 records gets a
  spare zero byte.
- `find_sdp` reads `rapid/repos.springrts.com/<repo name>/versions.gz`;
  it does not use `get_repo_path`.

## Model

| member | source | states |
|---|---|---|
| Parsing.DecodeRecord | src/rapid/parsing.rs:66-97 | one record consumes exactly 1 + len + 16 + 4 + 4 bytes, and those bytes are the record's encoding; a short buffer or a non-UTF-8 name is a panic, never an error value |
| Parsing.LoadSdpPackages | src/rapid/parsing.rs:62-101 | empty input gives no records; a successful decode is well-formed records whose encoding is exactly the input buffer; failure is only a panic |
| Parsing.LoadSdpPackagesFromFile | src/rapid/parsing.rs:56-60 | a read error exactly when the file cannot be read or decompressed; any other failure is a panic; on success the records encode to the decompressed bytes |
| Parsing.DecodeEncode | src/rapid/parsing.rs:62-101 | decoding the concatenated encodings of well-formed records returns exactly those records, in order |
| Parsing.DecodeSucceedsIffEncoding | src/rapid/parsing.rs:66-79 | a buffer decodes without panicking if and only if it is the encoding of some list of well-formed records |
| Parsing.Md5HexForm | src/rapid/parsing.rs:81-84 | the md5 text is 32 characters, and characters 2i and 2i+1 are the lowercase hex digits of digest byte i, high digit first |
| Parsing.VersionLineCharacterization | src/rapid/parsing.rs:39-50 | a version-list line yields a descriptor if and only if it is four comma-free fields joined by commas, and then fields 0-3 are fullname, md5, alias and the fourth column |
| Parsing.ReadRapidFromStr | src/rapid/parsing.rs:36-54 | at most one descriptor per line; every descriptor has four comma-free fields and, printed back as `fullname,md5,alias,something`, is one of the text's lines |
| Parsing.ReadRapidFromFile | src/rapid/parsing.rs:31-34 | fails exactly when the text cannot be read, and then with a read error; malformed lines never make it fail; otherwise it returns the version-list parse of the file's text |
| Parsing.ParsedVersionsAreLines | src/rapid/parsing.rs:39-51 | the same for any list of lines: each descriptor returned is one of the lines read as four comma-free fields |
| Parsing.ParseVersionLinesAppend | src/rapid/parsing.rs:39-51 | the list parser handles lines independently and keeps their order |
| Parsing.MalformedLineSkipped | src/rapid/parsing.rs:41-44 | a line without exactly four fields contributes nothing |
| Parsing.VersionListRoundTrip | src/rapid/parsing.rs:36-54 | printing well-formed descriptors one per line and parsing the text gives back the same descriptors |
| Parsing.ParseRepoLines | src/rapid/parsing.rs:17-26 | one repository per line, in order; the whole parse fails (with a panic) exactly when some line fails |
| Parsing.RepoLineCharacterization | src/rapid/parsing.rs:18-25 | a registry line parses if and only if it contains a comma; the name is the text before the first comma and the URL the text up to the next comma or the end of the line, so extra fields are ignored |
| Parsing.ParseReposFromStr | src/rapid/parsing.rs:14-29 | the registry text parses if and only if every line holds a comma, and then gives one repository per line with comma-free name and URL; the only failure is a panic |
| Parsing.ParseReposFromFile | src/rapid/parsing.rs:9-12 | a failure that is not a panic happens exactly when the text cannot be read, and is then a read error; a readable file gives the registry parse of its text, panic included |
| Parsing.RegistryRoundTrip | src/rapid/parsing.rs:14-29 | writing repositories as `name,url` lines and parsing the text gives back the same repositories |
| Env.ReadBinaryGz | src/gz.rs:31-55 | a gzip read succeeds exactly when the file exists and decompresses, and returns the decompressed bytes; otherwise it is a read error |
| Env.ReadGzText | src/gz.rs:15-29 | reading text succeeds exactly when the gzip read succeeds and its bytes decode as UTF-8, and returns that decoding; every failure is a read error |
| RapidStore.GetRegistryPath | src/rapid/rapid_store.rs:48-50 | the registry path lies under the root folder, at a fixed length past it |
| RapidStore.GetSdpPathFromMd5 | src/rapid/rapid_store.rs:65-68 | a descriptor path lies under the root folder, is 14 characters longer than the root plus the md5 text, and ends in `.sdp` |
| RapidStore.GetSdpPath | src/rapid/rapid_store.rs:61-63 | a version entry's descriptor path lies under the root folder, is 14 characters longer than the root plus the entry's md5 text, and ends in `.sdp` |
| RapidStore.PoolPathShape | src/rapid/rapid_store.rs:70-79 | every pool path lies under the root folder, has the same length, and ends in `.gz` |
| RapidStore.StoreAreasDisjoint | src/rapid/rapid_store.rs:48-79 | the registry, any version list, any descriptor file and any pool blob have pairwise different paths, so writing one never touches another |
| RapidStore.SdpPathInjective | src/rapid/rapid_store.rs:65-68 | two descriptor names share a `packages/<md5>.sdp` path if and only if they are equal |
| RapidStore.PoolPathIdentifiesDigest | src/rapid/rapid_store.rs:70-79 | two records share a pool path if and only if their digests are equal, whatever their names, sizes and checksums |
| RapidStore.GetRepoPath | src/rapid/rapid_store.rs:52-58 | the only failure of `get_repo_path` is a panic |
| RapidStore.RepoPathOfHttpUrl | src/rapid/rapid_store.rs:52-58 | an `http://` URL gives `root/rapid/<rest>/versions.gz` |
| RapidStore.RepoPathOfHttpsUrl | src/rapid/rapid_store.rs:52-58 | an `https://` URL gives `root/rapid/<rest>/versions.gz` |
| RapidStore.RepoPathWithoutScheme | src/rapid/rapid_store.rs:53-57 | a URL with neither scheme panics at the index of the second part |
| RapidStore.MissingIndicesIncreasing | src/rapid/rapid_store.rs:41-46 | the positions of missing files are strictly increasing, so descriptor order is kept |
| RapidStore.MissingIndicesAbsent | src/rapid/rapid_store.rs:41-46 | every listed position is a file whose pool path is absent |
| RapidStore.MissingIndicesComplete | src/rapid/rapid_store.rs:41-46 | every file whose pool path is absent is listed |
| RapidStore.FindMissingFiles | src/rapid/rapid_store.rs:41-46 | the missing files are the files at the missing positions, in order |
| RapidStore.GetMissingFilesIndices | src/rapid/rapid_store.rs:81-94 | the bitmap has n/8 + 1 bytes; bit i%8 of byte i/8 is set if and only if i < n and file i is absent, so bits at or past n are zero; its popcount equals the number of missing files |
| RapidStore.BitmapNonZeroIffMissing | src/rapid/rapid_store.rs:81-94 | some bitmap byte is non-zero if and only if some file is missing |
| Seqs.FirstIndex | src/rapid/rapid_store.rs:36-38 | the search over a sequence (`Iterator::find`) returns the first position whose element satisfies the condition, and none only when no element does; the same search finds a descriptor by name, a descriptor by md5 and a repository by name |
| RapidStore.FindSdp | src/rapid/rapid_store.rs:30-39 | `find_sdp` fails exactly when its version list cannot be read; otherwise it returns the first matching entry in file order, or none when nothing matches |
| RapidStore.FindSdpIgnoresUrl | src/rapid/rapid_store.rs:31-34 | the result does not depend on the repository's URL, only on its name |
| PoolDownloader.ReadAmount | src/pool_downloader.rs:73-92 | on success exactly n bytes, namely the next n unread bytes of the chunk stream; pulled chunks are accounted; the stream ending first is `NoMoreData` and a transport error is `NetworkError`; with no transport error the read succeeds exactly when n bytes remain |
| PoolDownloader.ReadRemainder | src/pool_downloader.rs:94-101 | returns every unread byte, or `NetworkError` if the rest of the stream holds a transport error |
| PoolDownloader.ProgressEvents | src/pool_downloader.rs:82-87 | one progress event per pulled chunk; the last reports the running total plus the sum of the pulled sizes |
| PoolDownloader.ReadFrame | src/pool_downloader.rs:140-152 | reading a frame leaves the disk alone, only appends events, and keeps the downloaded count plus the unread stream length constant |
| PoolDownloader.ReadFrameDecodes | src/pool_downloader.rs:140-152 | with no transport error, reading a frame is taking the first `[u32 BE length][payload]` frame off the unread bytes |
| PoolDownloader.FramesRoundTrip | src/pool_downloader.rs:138-164 | decoding a server body made of frames recovers the payloads and whatever follows them |
| PoolDownloader.WriteAllKeys | src/pool_downloader.rs:154-164 | writing payloads creates files at the blobs' pool paths and nowhere else |
| PoolDownloader.WriteAllContents | src/pool_downloader.rs:154-164 | when digests are distinct, the k-th missing blob's pool file holds exactly the k-th payload |
| PoolDownloader.WriteAllKeeps | src/pool_downloader.rs:154-164 | every other path keeps its contents |
| PoolDownloader.StoreWritesBlob | src/pool_downloader.rs:154-197 | storing a blob puts the payload at its pool path and changes no other path, leaves the reader and the downloaded count alone, and appends one `InvalidFile` event, naming the path and the failure, exactly when the written file fails its check |
| PoolDownloader.DownloadMissing | src/pool_downloader.rs:139-198 | the loop only appends events and fails only with `NoMoreData` or `NetworkError` |
| PoolDownloader.DownloadMissingAccounts | src/pool_downloader.rs:139-198 | the loop accounts for every byte of the stream, and fails with `NetworkError` only on a stream that has a transport error |
| PoolDownloader.DownloadSdpFilesWithUrl | src/pool_downloader.rs:116-212 | an empty descriptor or an all-zero bitmap is an assertion panic that leaves the disk alone; success starts with `DownloadStarted(size)` and reports `DownloadFinished` |
| PoolDownloader.DownloadIsFrameDecoding | src/pool_downloader.rs:138-212 | with no transport error, the disk gets the body's frames written to the missing blobs in order; the download fails with `NoMoreData` exactly when the body has fewer complete frames than missing blobs; otherwise the last event is `DownloadFinished`, or a bytes-remaining error when bytes follow the frames, and the result is still `Ok` |
| PoolDownloader.ChunkingDoesNotMatter | src/pool_downloader.rs:73-92 | two bodies with the same bytes, however chunked, leave the same files and the same result |
| PoolDownloader.ServerStreamIsStored | src/pool_downloader.rs:138-212 | a server sending one frame per missing blob gets every blob stored with its payload, and the download ends with `DownloadFinished` |
| PoolDownloader.DownloadIgnoresChecks | src/pool_downloader.rs:171-197 | a blob failing its post-write check is only reported: the files and the result do not depend on what the check finds |
| LegacyDownload.NextMissing | src/download.rs:22-35 | a position found is at or after `start` and within the list |
| LegacyDownload.NextMissingIsFirst | src/download.rs:22-35 | the position found is absent and every earlier one from `start` is present; none is found exactly when all from `start` are present |
| LegacyDownload.Select | src/download.rs:83-88 | starting a blob creates its pool file empty and resets every counter, which establishes the machine's invariant |
| LegacyDownload.Feed | src/download.rs:106-147 | the inner loop keeps the invariant: the size is set (big-endian) exactly when four length bytes have arrived, the payload written never exceeds it, and the current file exists with as many bytes as the payload written so far; it fails only by panicking, and only as written |
| LegacyDownload.Advance | src/download.rs:131-145 | after a completed payload, the state resets to the next missing blob; it panics exactly when there is none and the mode is as-written, and the panic leaves the files as they are |
| LegacyDownload.FeedAll | src/download.rs:102-150 | the outer loop keeps the invariant; a transport error ends it with that error, and with no transport error the only failure is a panic; a run that stops early reports the files it leaves behind |
| LegacyDownload.TransportErrorKeepsWrites | src/download.rs:102-103 | a transport error after some clean chunks ends the run with that error and the files exactly as those chunks left them, including the partly written file of the blob in progress; a panic before it takes precedence |
| LegacyDownload.FeedIsFold | src/download.rs:106-147 | feeding a chunk equals stepping the machine one byte at a time over it |
| LegacyDownload.DownloadWith | src/download.rs:82-150 | with no missing blob the first lookup panics, before any byte is read and with no file touched |
| LegacyDownload.DownloadSdpFilesAsWritten | src/download.rs:37-153 | as written, a download fails only with a transport error or a panic; on an unbroken body only with a panic; with nothing missing always with a panic |
| LegacyDownload.DownloadSdpFiles | src/download.rs:37-153 | corrected, a download panics if and only if nothing is missing; otherwise it fails only with a transport error, and on an unbroken body it succeeds if and only if some blob is missing |
| LegacyDownload.LegacyChunkingDoesNotMatter | src/download.rs:102-150 | two bodies with the same bytes, however chunked, give the same result |
| LegacyDownload.Progress | src/download.rs:102-149 | the progress positions are the running totals of the chunks received, and there is one per chunk exactly when the whole body was processed |
| LegacyDownload.CumulativeAt | src/download.rs:104 | the k-th running total is the starting count plus the bytes of the first k+1 chunks |
| LegacyDownload.ProgressReachesBody | src/download.rs:102-149 | after a complete run, the last progress position equals the body's length |
| LegacyDownload.NothingMissingPanics | src/download.rs:82 | with no missing blob the first lookup panics and leaves the disk as it was; corrected, that is the only panic |
| LegacyDownload.MissingDistinctIsLaterMissingDistinct | src/download.rs:22-35 | when the missing records have distinct digests, creating the pool file of any record never makes a later missing record look present to the next-blob search |
| LegacyDownload.LegacyPanicsAfterLastBlob | src/download.rs:131-134 | when the missing records have distinct digests, a server body of one non-empty frame per missing blob, followed by anything, panics as written once the last missing blob completes, leaving every payload stored in its blob's pool file |
| LegacyDownload.LegacyStoresServerStream | src/download.rs:102-150 | corrected, the same body succeeds; every missing blob holds its payload, and bytes after the frames are counted as left over |
| LegacyDownload.DuplicateDigestShiftsFrames | src/download.rs:131-138 | with three missing records, the first two sharing a digest, the shared pool file exists once the first frame is in, so the search skips the second record: the second frame is written to the third record's file and the third frame is left over (corrected) or never read (as written, which panics with the same two files written) |
| Validation.ScanPackages | src/validation.rs:27-52 | the result is `false` if and only if every record's blob has the recorded digest, and `true` if and only if the first failing record is readable with another digest; a pool file that cannot be read or decompressed panics |
| Validation.CheckIfSdpNeedsDownload | src/validation.rs:7-53 | a missing descriptor needs a download; an unreadable one does not; a readable one that does not decode panics; otherwise the record-scan answer applies |
| Validation.CheckIfTagIsValid | src/validation.rs:55-63 | the negation of the download check on the resolved md5: valid implies the descriptor exists and, when readable, that every blob has its digest; invalid implies a missing descriptor or a readable blob with another digest |
| Fix.DamagedMembers | src/cmds/fix.rs:45-55 | a path is deleted if and only if some report entry lists it as `Corrupt` or `WrongHash` |
| Fix.RemoveDamaged | src/cmds/fix.rs:44-57 | each damaged entry is either a successful removal or one reported `RemoveFailed` error, and the loop carries on |
| Fix.RemoveDamagedEffect | src/bin/cmds/fix.rs:55-68 | the disk afterwards is the disk minus the damaged paths, and the removed count is the number of files that actually went |
| Fix.RemovalKeepsOthers | src/bin/cmds/fix.rs:57-67 | paths never listed as damaged keep their contents; every damaged path is gone |
| Fix.Fix | src/bin/cmds/fix.rs:12-30 | `fix` makes between one and five attempts, the first message announces attempt 0, a success follows exactly one fewer download than attempts, and giving up means five attempts and five downloads |
| Fix.FixAttempt | src/cmds/fix.rs:24-64 | an attempt succeeds if and only if validation passes, and then changes nothing and downloads nothing; otherwise it downloads with the variant's options; it never reports the final outcome |
| Fix.FailedAttemptDownloads | src/bin/cmds/fix.rs:46-77 | after `InvalidFiles`, the download runs over the disk without the damaged paths; after `MissingSdp` or a metadata error, over the unchanged disk |
| Fix.RemovedCountReported | src/bin/cmds/fix.rs:69-71 | the last message of an `InvalidFiles` attempt reports how many damaged paths were on the disk |
| Fix.FixFrom | src/bin/cmds/fix.rs:17-25 | at most five attempts; giving up means exactly five; one download per failed attempt |
| Fix.FixDownloadsUseOptions | src/bin/cmds/fix.rs:75 | every download the loop starts uses the same options |
| Fix.FixEndsWithOutcome | src/bin/cmds/fix.rs:21-29 | the last message says how the run ended: success, or the give-up error |
| Fix.FixReportsOutcomeOnce | src/cmds/fix.rs:12-21 | no message before the last reports an outcome, so success or the give-up error is reported once, at the end |
| Fix.FixFromStopsAtFirstValid | src/cmds/fix.rs:12-19 | the loop stops at the first attempt whose validation passes, on the disk the earlier failed attempts left |
| Fix.FixSucceedsIffSomeAttemptValid | src/bin/cmds/fix.rs:17-29 | `fix` succeeds if and only if one of the first five validations passes; otherwise it makes five attempts and five downloads |
| MetaDownloadRepo.RegistryLoop | src/bin/cmds/meta_download_repo.rs:43-55 | the loop records at least one step; it succeeds if and only if its last step is a successful read, and then returns what the registry on the final disk parses to |
| MetaDownloadRepo.RegistryLoopBounded | src/bin/cmds/meta_download_repo.rs:43-55 | reads and downloads alternate and there are at most five reads; the first successful read ends the loop with its repositories; a failed download ends it with that error; a failed fifth read returns that read's error; an earlier failed read ends it only by panicking |
| MetaDownloadRepo.RegistryLoopCounts | src/bin/cmds/meta_download_repo.rs:47-51 | at most five registry reads and four registry downloads |
| MetaDownloadRepo.DownloadOneRepo | src/bin/cmds/meta_download_repo.rs:38-65 | a registry failure is returned without any repository download; an unknown name is `NoSuchRepo`; the version list is downloaded only for the repository found, and the result is that download's |
| MetaDownloadRepo.DownloadsOnlyNamedRepo | src/bin/cmds/meta_download_repo.rs:57-60 | the repository whose version list is downloaded is the first registry entry with exactly the requested name |
| MetaDownloadRepo.HandleErrors | src/bin/cmds/meta_download_repo.rs:27-35 | a failure is reported as a failed repository download carrying its cause |
| MetaDownloadRepo.HandleErrorsReportsSuccessAsError | src/bin/cmds/meta_download_repo.rs:29-31 | as written, every outcome, success included, is sent as an error event |
| MetaDownloadRepo.HandleErrorsCorrected | src/bin/cmds/meta_download_repo.rs:27-35 | corrected, an error event is sent if and only if the download failed |
| MetaDownloadRepo.MetaDownloadRepo | src/bin/cmds/meta_download_repo.rs:16-25 | with a name, the event reports that repository's download; without one, a failed-download error is sent if and only if downloading all repositories failed |
| MetadataLocal.Basename | src/metadata/metadata_local.rs:13-14 | the basename has no colon, is a prefix of the full name, and is followed by a colon when shorter; it is never a panic |
| MetadataLocal.BasenameOfTagged | src/metadata/metadata_local.rs:13-14 | `repo:tag` has basename `repo`, and a name with no colon is its own basename |
| MetadataLocal.FindRepoIsFirst | src/metadata/metadata_local.rs:42 | the repository found is the first with exactly that name; none is found only when no entry has it |
| MetadataLocal.QueryRepo | src/metadata/metadata_local.rs:30-43 | a readable registry gives the first exact-name match; an unreadable one is `CorruptFile`; a malformed line stays a panic |
| MetadataLocal.QuerySdp | src/metadata/metadata_local.rs:45-52 | a `find_sdp` result passes through, and its error becomes `CorruptFile` |
| MetadataLocal.QueryMetadata | src/metadata/metadata_local.rs:9-25 | an error is `CorruptFile` or a panic; a pair found has the basename as its repository name and the whole name as the descriptor's full name or alias |
| MetadataLocal.QueryMetadataResolves | src/metadata/metadata_local.rs:9-25 | an unknown repository gives `Ok(None)`; the full name, not the tag, is looked up in the version list; a missing descriptor gives `Ok(None)`; both found give the pair; a pair found has the basename as its repository name and the full name as its fullname or alias |
| MetadataLocal.UnknownRepoReadsOnlyRegistry | src/metadata/metadata_local.rs:16-19 | for an unknown repository the answer does not depend on any file but the registry |
| MetadataLocal.QuerySdpFiles | src/metadata/metadata_local.rs:65-71 | succeeds exactly when the descriptor exists and decodes, returning its records; a missing descriptor or a decode failure is a panic |
| MetadataLocal.QuerySdpFilesRoundTrip | src/metadata/metadata_local.rs:65-71 | a descriptor holding the encoding of well-formed records gives back exactly those records |
| DownloadSdp.Examine | src/cmds/download_sdp.rs:23-34 | one repository either panics (URL without a scheme), stops the search (unreadable version list), is skipped (no md5 match), or yields its first match |
| DownloadSdp.SearchRepos | src/cmds/download_sdp.rs:22-39 | the search fails only by a panic, and a pair found has the requested md5 and a repository of the registry |
| DownloadSdp.SearchDecidedByFirstUnskipped | src/cmds/download_sdp.rs:22-39 | the search is decided by the first repository in registry order that is not skipped; when all are skipped the result is none |
| DownloadSdp.FoundIsFirstMatch | src/cmds/download_sdp.rs:35-38 | a found package has the requested md5 and comes with the repository whose version list holds it; every earlier repository was searched without a match |
| DownloadSdp.LaterReposIgnored | src/cmds/download_sdp.rs:23-27 | once a repository is not skipped (in particular, an unreadable one), later registry entries never affect the result |
| DownloadSdp.SearchFailsOnlyByPanic | src/cmds/download_sdp.rs:23 | the search fails only by a panic in the repository path |
| DownloadSdp.DownloadSdp | src/cmds/download_sdp.rs:8-57 | a registry failure other than a panic emits one error and downloads nothing; no match emits "no such sdp" and downloads nothing; a download happens only for the pair the search found, which has the requested md5; at most one error event |

## Left out

- Validation.CheckIfTagIsValid: takes the descriptor the metadata lookup resolved the name to (`src/validation.rs:60`, dispatched by `src/metadata/mod.rs:15-27`) as a parameter. The lookup itself is not part of this member, and neither is a name that does not resolve.
- RapidStore.StoreAreasDisjoint: paths are plain strings. `Path::join` and the filesystem merge `.` components and doubled separators, and the filesystem resolves `..`; the model keeps all of these distinct. So the store areas are disjoint as path strings, and as files only when repository names and md5 texts are plain path segments.
- RapidStore.SdpPathInjective: holds for path strings for the same reason; two md5 texts that differ only in `.`, `..` or doubled separators can name the same file.
- Network, HTTP and TLS are left out: the request building, the `Content-Length` header and its `unwrap` parsing. A response is modelled as an optional size with a sequence of chunks, each either data or a transport error.
- gzip (RFC 1952), MD5 (RFC 1321) and UTF-8 decoding of whole files are uninterpreted functions in `Env.Codecs`, with decompression partial. Compressing the bitmap before it is posted is not modelled.
- Async execution and real file writes are not modelled. `file.write` in the older download is taken to write the whole slice, since partial writes are operating-system behaviour.
- Failures of directory creation, file creation and flushing are not modelled: the disk map always accepts a write.
- The post-write size check in the pool downloader (`fs::metadata`) is not modelled. Since writes are whole, the size on disk always equals the payload's length and the mismatch event cannot occur.
- PoolDownloader.DownloadMissing: read errors keep the reader's own kinds (`NoMoreData`, `NetworkError`) instead of being wrapped into `InvalidServerResponse`, because the wrapper adds no information.
- Validation.ValidateSdpPackage: the body of `validate_sdp_package` is not part of this model. It is defined from the `FileError` kinds its callers distinguish: missing, corrupt (does not decompress) and wrong hash.
- `validation::validate_by_fullname` and `download::download`, as used by `fix`, are not part of this model. They are injected (`Fix.Services`) as a verdict on a disk and a disk after a download, each given the metadata source in use.
- `file_download::download_repo_registry`, `download_repo`, `download_all_repos` and `download_sdp` are network downloads. They are injected as functions from a disk to a new disk or a failure.
- Fix.RemoveDamaged: a removal fails only when the path is not on the disk (never there, or listed twice). Permission and other I/O errors are not modelled.
- The library's `println!` lines in `src/cmds/fix.rs` are modelled as the same events the binary variant emits. Event text formatting (`{e:?}`, paths) is replaced by structured event payloads.
- The "Failed to update registry" message of `download_sdp` is modelled as the `SdpDownloadFailed` event. The message has no other effect.
- PoolDownloader.WriteAllContents: requires distinct digests among the missing blobs. Two records with the same digest share a pool file, and the later payload overwrites the earlier one.
- LegacyDownload.LegacyPanicsAfterLastBlob: requires distinct digests among the missing records. In the older machine a shared digest does more than overwrite: `File::create` makes the shared pool file before its payload arrives, so the next-blob search (`src/download.rs:27-31`) skips the later record with that digest and every later frame goes to the next missing record's file. `LegacyDownload.DuplicateDigestShiftsFrames` exhibits this; no machine that avoids it is modelled.
- LegacyDownload.LegacyPanicsAfterLastBlob: also requires every payload to be non-empty. A zero-length frame makes the older machine wait for the next byte before advancing, so a body whose last frame is empty and is followed by nothing ends without the panic. Pool blobs are gzip streams, which are never empty.
- LegacyDownload.LegacyStoresServerStream: has the same two requirements as `LegacyPanicsAfterLastBlob`, for the same reasons.
- The legacy download's progress bar is modelled by its positions only; its drawing is not modelled. The streaming downloader's progress is modelled as `DownloadProgress` events.
- The legacy download's request URL (`<repo url>/streamer.cgi?<md5>`) and its `parse().unwrap()` are not modelled.

## Findings

| source | as written | input that shows it | evidently intended | confidence | as-written member | corrected member |
|---|---|---|---|---|---|---|
| src/download.rs:131-134 | after every completed payload the next missing blob is looked up with `unwrap()`, including after the last one | any disk with at least one missing blob whose missing records have distinct digests, and the streamer's correct body for it (one non-empty frame per missing blob) | the download ends normally after the last missing blob | high (not executed) | LegacyDownload.LegacyPanicsAfterLastBlob | LegacyDownload.LegacyStoresServerStream |
| src/bin/cmds/meta_download_repo.rs:29-31 | a successful download is reported as `Event::Error("Download success")` | any repository download that returns `Ok(())` | success is reported as an informational event | high (not executed) | MetaDownloadRepo.HandleErrorsReportsSuccessAsError | MetaDownloadRepo.HandleErrorsCorrected |
